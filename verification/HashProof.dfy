/** The invariant of the concurrent hash table holds in every state of every run, and with it
    linearizability, mutual exclusion and the safety of the read after release. */
module HashProof {
  import opened HashMachine

  // ----- What no step changes -----

  /** Nodes keep key and element, the log and the clock only grow. */
  ghost predicate Evolves(s: System, s': System) {
    && |s.heap| <= |s'.heap|
    && (forall p :: 0 <= p < |s.heap| ==> s'.heap[p].key == s.heap[p].key && s'.heap[p].element == s.heap[p].element)
    && |s'.buckets| == |s.buckets|
    && |s.log| <= |s'.log| && (forall i :: 0 <= i < |s.log| ==> s'.log[i] == s.log[i])
    && s.now < s'.now && s.issued <= s'.issued
  }

  lemma ThreadFrame(s: System, s': System, chains: seq<seq<int>>, chains': seq<seq<int>>, th: Thread)
    requires |chains| == |s.buckets| > 0 && |chains'| == |chains| && Evolves(s, s')
    requires ThreadOk(s, chains, th) && th.Busy? ==> PlaceOk(s', chains'[BucketOf(s, th.op)], th)
    requires ThreadOk(s, chains, th)
    requires forall i :: |s.log| <= i < |s'.log| && th.Busy? ==> s'.log[i].id != th.id
    ensures ThreadOk(s', chains', th)
  {
  }

  /** All other threads are where they were; th' is where thread t is now. */
  lemma ThreadsFrame(s: System, s': System, chains: seq<seq<int>>, chains': seq<seq<int>>, t: nat)
    requires |chains| == |s.buckets| > 0 && |chains'| == |chains| && Evolves(s, s') && ThreadsOk(s, chains)
    requires t < |s.threads| && |s'.threads| == |s.threads|
    requires forall u :: 0 <= u < |s.threads| && u != t ==> s'.threads[u] == s.threads[u]
    requires forall u :: 0 <= u < |s.threads| && u != t ==> ThreadOk(s', chains', s.threads[u])
    requires ThreadOk(s', chains', s'.threads[t])
    requires s'.threads[t].Busy? ==>
               (s.threads[t].Busy? && s'.threads[t].id == s.threads[t].id) || s'.threads[t].id == s.issued
    requires HoldsNode(s'.threads[t]) ==>
               || (HoldsNode(s.threads[t]) && s'.threads[t].current == s.threads[t].current)
               || s'.threads[t].current == |s.heap|
    ensures ThreadsOk(s', chains')
  {
    forall u | 0 <= u < |s.threads| && u != t && s.threads[u].Busy? && s'.threads[t].Busy?
      ensures s.threads[u].id != s'.threads[t].id
      ensures HoldsNode(s.threads[u]) && HoldsNode(s'.threads[t]) ==> s.threads[u].current != s'.threads[t].current
    {
      assert ThreadOk(s, chains, s.threads[u]);
      if u < t {
        assert s.threads[t].Busy? ==> s.threads[u].id != s.threads[t].id;
      } else {
        assert s.threads[t].Busy? ==> s.threads[t].id != s.threads[u].id;
      }
    }
    hide ThreadOk;
  }

  /** The same lists, the same flags, t in its section exactly when it was. */
  lemma LocksFrame(s: System, s': System, t: nat)
    requires LocksOk(s) && t < |s.threads| && |s'.threads| == |s.threads| && |s'.buckets| == |s.buckets|
    requires forall u :: 0 <= u < |s.threads| && u != t ==> s'.threads[u] == s.threads[u]
    requires forall b :: 0 <= b < |s.buckets| ==> s'.buckets[b].flag == s.buckets[b].flag
    requires InSection(s'.threads[t]) <==> InSection(s.threads[t])
    requires InSection(s.threads[t]) ==> s'.threads[t].op == s.threads[t].op
    ensures LocksOk(s')
  {
    forall b | 0 <= b < |s'.buckets| && s'.buckets[b].flag
      ensures exists u :: 0 <= u < |s'.threads| && InSection(s'.threads[u]) && BucketOf(s', s'.threads[u].op) == b
    {
      var u :| 0 <= u < |s.threads| && InSection(s.threads[u]) && BucketOf(s, s.threads[u].op) == b;
      assert InSection(s'.threads[u]) && BucketOf(s', s'.threads[u].op) == b;
    }
  }

  lemma CallsFrame(s: System, s': System, t: nat)
    requires CallsOk(s) && t < |s.threads| && |s'.threads| == |s.threads| && Evolves(s, s') && s'.calls == s.calls
    requires forall u :: 0 <= u < |s.threads| && u != t ==> s'.threads[u] == s.threads[u]
    requires s'.threads[t].Busy? ==>
               (s.threads[t].Busy? && s'.threads[t].id == s.threads[t].id) || s'.threads[t].id == s.issued
    ensures CallsOk(s')
  {
    forall i | 0 <= i < |s.calls| ensures CallOk(s', s.calls[i]) {
      assert CallOk(s, s.calls[i]);
    }
  }

  lemma LogFrame(s: System, s': System)
    requires LogOk(s) && s'.log == s.log && s.now < s'.now && s.issued <= s'.issued
    ensures LogOk(s')
  {
  }

  // ----- Elements of a list -----

  lemma {:induction false} ElementsFrame(heap: seq<Node>, heap': seq<Node>, chain: seq<int>, k: Key)
    requires |heap| <= |heap'| && forall i :: 0 <= i < |chain| ==> 0 <= chain[i] < |heap|
    requires forall p :: 0 <= p < |heap| ==> heap'[p].key == heap[p].key && heap'[p].element == heap[p].element
    ensures Elements(heap', chain, k) == Elements(heap, chain, k)
  {
    if chain != [] {
      ElementsFrame(heap, heap', chain[1..], k);
    }
  }

  /** With no node of that key among the first n, they contribute nothing. */
  lemma {:induction false} ElementsSkip(heap: seq<Node>, chain: seq<int>, k: Key, n: nat)
    requires n <= |chain| && forall i :: 0 <= i < |chain| ==> 0 <= chain[i] < |heap|
    requires forall i :: 0 <= i < n ==> heap[chain[i]].key != k
    ensures Elements(heap, chain, k) == Elements(heap, chain[n..], k)
  {
    if n > 0 {
      ElementsSkip(heap, chain[1..], k, n - 1);
      assert chain[1..][n - 1..] == chain[n..];
    } else {
      assert chain[0..] == chain;
    }
  }

  lemma ElementsCons(heap: seq<Node>, chain: seq<int>, k: Key)
    requires chain != []
    ensures Elements(heap, chain, k) == Here(heap, chain[0], k) + Elements(heap, chain[1..], k)
  {
  }

  lemma ElementsNil(heap: seq<Node>, k: Key)
    ensures Elements(heap, [], k) == []
  {
  }

  lemma {:induction false} ElementsAppend(heap: seq<Node>, a: seq<int>, b: seq<int>, k: Key)
    ensures Elements(heap, a + b, k) == Elements(heap, a, k) + Elements(heap, b, k)
  {
    hide Here, Elements;
    if a == [] {
      assert a + b == b;
      ElementsNil(heap, k);
    } else {
      ElementsAppend(heap, a[1..], b, k);
      assert (a + b)[0] == a[0] && (a + b)[1..] == a[1..] + b;
      ElementsCons(heap, a, k);
      ElementsCons(heap, a + b, k);
    }
  }

  function Without(chain: seq<int>, i: nat): seq<int>
    requires i < |chain|
  {
    chain[..i] + chain[i + 1..]
  }

  /** Taking out the first node of key k drops the first element under k and no other. */
  lemma ElementsWithout(heap: seq<Node>, chain: seq<int>, i: nat, k: Key)
    requires i < |chain| && forall j :: 0 <= j < |chain| ==> 0 <= chain[j] < |heap|
    requires forall j :: 0 <= j < i ==> heap[chain[j]].key != heap[chain[i]].key
    ensures k == heap[chain[i]].key ==>
              Elements(heap, chain, k) != [] && Elements(heap, chain, k)[0] == heap[chain[i]].element
    ensures Elements(heap, Without(chain, i), k)
         == if k == heap[chain[i]].key then Elements(heap, chain, k)[1..] else Elements(heap, chain, k)
  {
    hide Elements;
    ElementsAround(heap, chain, i, k);
    ElementsAppend(heap, chain[..i], chain[i + 1..], k);
    if k == heap[chain[i]].key {
      NothingBelow(heap, chain, i, k);
    }
  }

  lemma NothingBelow(heap: seq<Node>, chain: seq<int>, i: nat, k: Key)
    requires i < |chain| && forall j :: 0 <= j < |chain| ==> 0 <= chain[j] < |heap|
    requires forall j :: 0 <= j < i ==> heap[chain[j]].key != k
    ensures Elements(heap, chain[..i], k) == []
  {
    ElementsSkip(heap, chain[..i], k, i);
    assert chain[..i][i..] == [];
  }

  lemma ElementsAround(heap: seq<Node>, chain: seq<int>, i: nat, k: Key)
    requires i < |chain|
    ensures Elements(heap, chain, k)
         == Elements(heap, chain[..i], k) + (Here(heap, chain[i], k) + Elements(heap, chain[i + 1..], k))
  {
    hide Here;
    assert chain == chain[..i] + chain[i..];
    ElementsAppend(heap, chain[..i], chain[i..], k);
    assert chain[i..][0] == chain[i] && chain[i..][1..] == chain[i + 1..];
  }

  lemma ContentsFrame(s: System, s': System, chains: seq<seq<int>>)
    requires ChainsOk(s, chains) && ContentsOk(s, chains) && Evolves(s, s') && s'.log == s.log
    ensures ContentsOk(s', chains)
  {
    forall k: Key ensures Elements(s'.heap, chains[k % |s'.buckets|], k) == Stack(s'.log, k) {
      ElementsFrame(s.heap, s'.heap, chains[k % |s.buckets|], k);
    }
  }

  // ----- Lists under a change of one link -----

  lemma LinkedFrame(heap: seq<Node>, heap': seq<Node>, head: int, chain: seq<int>)
    requires Linked(heap, head, chain) && |heap| <= |heap'|
    requires forall i :: 0 <= i < |chain| ==> 0 <= chain[i] < |heap| && heap'[chain[i]].next == heap[chain[i]].next
    ensures Linked(heap', head, chain)
  {
  }

  lemma ChainsFrame(s: System, s': System, chains: seq<seq<int>>)
    requires ChainsOk(s, chains) && Evolves(s, s')
    requires forall b :: 0 <= b < |s.buckets| ==> s'.buckets[b].head == s.buckets[b].head
    requires forall b, i :: 0 <= b < |chains| && 0 <= i < |chains[b]| && 0 <= chains[b][i] < |s.heap| ==>
               s'.heap[chains[b][i]].next == s.heap[chains[b][i]].next
    ensures ChainsOk(s', chains)
  {
    forall b | 0 <= b < |chains| ensures Linked(s'.heap, s'.buckets[b].head, chains[b]) {
      LinkedFrame(s.heap, s'.heap, s.buckets[b].head, chains[b]);
    }
  }

  lemma OtherBucket(s: System, chains: seq<seq<int>>, p: int, b: nat)
    requires ChainsOk(s, chains) && Valid(s, p) && b < |chains| && s.heap[p].key % |s.buckets| != b
    ensures p !in chains[b]
  {
  }

  // ----- Other threads keep their place -----

  lemma PlaceFrame(s: System, s': System, chain: seq<int>, th: Thread)
    requires th.Busy? && |s.buckets| > 0 && PlaceOk(s, chain, th) && Evolves(s, s')
    requires th.pc == Publish && Valid(s, th.current) ==> s'.heap[th.current].next == s.heap[th.current].next
    ensures PlaceOk(s', chain, th)
  {
  }

  /** Thread u's list is untouched, or u is outside its section and its node is not in the new list. */
  ghost predicate Untouched(s: System, s': System, chains: seq<seq<int>>, chains': seq<seq<int>>, th: Thread)
    requires |chains| == |chains'| == |s.buckets| > 0
  {
    th.Busy? ==>
      var b := BucketOf(s, th.op);
      && (chains'[b] == chains[b]
          || (!InSection(th) && (th.pc == Acquire && th.op.Insert? ==> th.current !in chains'[b])))
      && (th.pc == Publish && Valid(s, th.current) && th.current < |s'.heap| ==>
            s'.heap[th.current].next == s.heap[th.current].next)
  }

  lemma OthersFrame(s: System, s': System, chains: seq<seq<int>>, chains': seq<seq<int>>, t: nat, u: nat)
    requires |chains| == |chains'| == |s.buckets| > 0 && Evolves(s, s') && ThreadsOk(s, chains)
    requires t < |s.threads| && u < |s.threads| && u != t
    requires forall i :: |s.log| <= i < |s'.log| ==> s.threads[t].Busy? && s'.log[i].id == s.threads[t].id
    requires Untouched(s, s', chains, chains', s.threads[u])
    ensures ThreadOk(s', chains', s.threads[u])
  {
    var th := s.threads[u];
    assert ThreadOk(s, chains, th);
    if th.Busy? {
      assert th.pc == Acquire && th.op.Insert? ==> HoldsNode(th);
      PlaceFrame(s, s', chains[BucketOf(s, th.op)], th);
    }
    ThreadFrame(s, s', chains, chains', th);
  }

  // ----- One lemma per kind of step -----

  /** What a step of thread t at a busy point gives to start from. */
  ghost predicate At(s: System, chains: seq<seq<int>>, t: nat, pc: Pc) {
    Inv(s, chains) && t < |s.threads| && s.threads[t].Busy? && s.threads[t].pc == pc
  }

  lemma Alone(s: System, t: nat, u: nat)
    requires LocksOk(s) && t < |s.threads| && u < |s.threads| && t != u
    requires InSection(s.threads[t]) && InSection(s.threads[u])
    ensures BucketOf(s, s.threads[t].op) != BucketOf(s, s.threads[u].op)
  {
    if t < u {
    } else {
      assert BucketOf(s, s.threads[u].op) != BucketOf(s, s.threads[t].op);
    }
  }

  lemma OwnNodes(s: System, chains: seq<seq<int>>, t: nat, u: nat)
    requires |chains| == |s.buckets| > 0 && ThreadsOk(s, chains) && t < |s.threads| && u < |s.threads| && t != u
    requires HoldsNode(s.threads[t]) && HoldsNode(s.threads[u])
    ensures s.threads[t].current != s.threads[u].current
  {
    hide ThreadOk;
    if t > u {
      assert s.threads[u].current != s.threads[t].current;
    }
  }

  lemma InvokeKeeps(s: System, chains: seq<seq<int>>, t: nat, op: Op)
    requires Inv(s, chains) && t < |s.threads| && s.threads[t].Idle?
    ensures Inv(Invoke(s, t, op), chains)
  {
    hide Linked, Elements, Stack, PlaceOk;
    var s' := Invoke(s, t, op);
    assert Evolves(s, s');
    ChainsFrame(s, s', chains);
    LocksFrame(s, s', t);
    ContentsFrame(s, s', chains);
    LogFrame(s, s');
    CallsFrame(s, s', t);
    InvokedThread(s, chains, t, op);
    forall u: nat | u < |s.threads| && u != t ensures ThreadOk(s', chains, s.threads[u]) {
      assert ThreadOk(s, chains, s.threads[u]);
      PublishedNode(s, chains, s.threads[u]);
      OthersFrame(s, s', chains, chains, t, u);
    }
    ThreadsFrame(s, s', chains, chains, t);
  }

  lemma PublishedNode(s: System, chains: seq<seq<int>>, th: Thread)
    requires |chains| == |s.buckets| > 0 && ThreadOk(s, chains, th)
    ensures HoldsNode(th) ==> Valid(s, th.current)
  {
  }

  lemma InvokedThread(s: System, chains: seq<seq<int>>, t: nat, op: Op)
    requires Inv(s, chains) && t < |s.threads|
    ensures ThreadOk(Invoke(s, t, op), chains, Invoke(s, t, op).threads[t])
  {
    hide Linked, Elements, Stack, ThreadsOk, LocksOk, ContentsOk;
    assert forall b, i :: 0 <= b < |chains| && 0 <= i < |chains[b]| ==> Valid(s, chains[b][i]);
  }

  lemma AcquireKeeps(s: System, chains: seq<seq<int>>, t: nat)
    requires At(s, chains, t, Acquire)
    ensures Inv(StepAcquire(s, t), chains)
  {
    hide Linked, Elements, Stack, PlaceOk;
    var s' := StepAcquire(s, t);
    assert Evolves(s, s');
    ChainsFrame(s, s', chains);
    ContentsFrame(s, s', chains);
    LogFrame(s, s');
    CallsFrame(s, s', t);
    AcquireLocks(s, t);
    AcquiredThread(s, chains, t);
    forall u: nat | u < |s.threads| && u != t ensures ThreadOk(s', chains, s.threads[u]) {
      OthersFrame(s, s', chains, chains, t, u);
    }
    ThreadsFrame(s, s', chains, chains, t);
  }

  lemma AcquireLocks(s: System, t: nat)
    requires LocksOk(s) && t < |s.threads| && s.threads[t].Busy? && s.threads[t].pc == Acquire
    ensures LocksOk(StepAcquire(s, t))
  {
    var s' := StepAcquire(s, t);
    var b := BucketOf(s, s.threads[t].op);
    if s.buckets[b].flag {
      LocksFrame(s, s', t);
    } else {
      assert InSection(s'.threads[t]);
      forall c | 0 <= c < |s'.buckets| && s'.buckets[c].flag
        ensures exists u :: 0 <= u < |s'.threads| && InSection(s'.threads[u]) && BucketOf(s', s'.threads[u].op) == c
      {
        if c != b {
          var u :| 0 <= u < |s.threads| && InSection(s.threads[u]) && BucketOf(s, s.threads[u].op) == c;
          assert InSection(s'.threads[u]) && BucketOf(s', s'.threads[u].op) == c;
        } else {
          assert InSection(s'.threads[t]) && BucketOf(s', s'.threads[t].op) == c;
        }
      }
    }
  }

  lemma AcquiredThread(s: System, chains: seq<seq<int>>, t: nat)
    requires At(s, chains, t, Acquire)
    ensures ThreadOk(StepAcquire(s, t), chains, StepAcquire(s, t).threads[t])
  {
    hide Linked, LocksOk, ContentsOk, LogOk, CallsOk;
    assert ThreadOk(s, chains, s.threads[t]);
  }

  lemma LinkKeeps(s: System, chains: seq<seq<int>>, t: nat)
    requires At(s, chains, t, Link)
    ensures Valid(s, s.threads[t].current) && Inv(StepLink(s, t), chains)
  {
    hide Linked, Elements, Stack, PlaceOk, Nth;
    LinkedThread(s, chains, t);
    var s', p := StepLink(s, t), s.threads[t].current;
    assert Evolves(s, s');
    NodeOutside(s, chains, t);
    ChainsFrame(s, s', chains);
    LocksFrame(s, s', t);
    ContentsFrame(s, s', chains);
    LogFrame(s, s');
    CallsFrame(s, s', t);
    forall u: nat | u < |s.threads| && u != t ensures ThreadOk(s', chains, s.threads[u]) {
      if HoldsNode(s.threads[u]) {
        OwnNodes(s, chains, t, u);
      }
      PublishIsInsert(s, chains, u);
      OthersFrame(s, s', chains, chains, t, u);
    }
    ThreadsFrame(s, s', chains, chains, t);
  }

  lemma PublishIsInsert(s: System, chains: seq<seq<int>>, u: nat)
    requires |chains| == |s.buckets| > 0 && ThreadsOk(s, chains) && u < |s.threads|
    ensures s.threads[u].Busy? && (s.threads[u].pc == Publish || s.threads[u].pc == Link) ==> HoldsNode(s.threads[u])
  {
    assert ThreadOk(s, chains, s.threads[u]);
  }

  /** A node not yet published is in no list. */
  lemma NodeOutside(s: System, chains: seq<seq<int>>, t: nat)
    requires ChainsOk(s, chains) && ThreadsOk(s, chains) && t < |s.threads| && HoldsNode(s.threads[t])
    ensures Valid(s, s.threads[t].current)
    ensures forall b :: 0 <= b < |chains| ==> s.threads[t].current !in chains[b]
  {
    hide Linked;
    assert ThreadOk(s, chains, s.threads[t]);
    forall b | 0 <= b < |chains| ensures s.threads[t].current !in chains[b] {
      if b != BucketOf(s, s.threads[t].op) {
        OtherBucket(s, chains, s.threads[t].current, b);
      }
    }
  }

  lemma LinkedThread(s: System, chains: seq<seq<int>>, t: nat)
    requires At(s, chains, t, Link)
    ensures Valid(s, s.threads[t].current) && HoldsNode(s.threads[t])
    ensures ThreadOk(StepLink(s, t), chains, StepLink(s, t).threads[t])
  {
    hide LocksOk, ContentsOk, LogOk, CallsOk;
    assert ThreadOk(s, chains, s.threads[t]);
    assert Linked(s.heap, s.buckets[BucketOf(s, s.threads[t].op)].head, chains[BucketOf(s, s.threads[t].op)]);
  }

  lemma StartKeeps(s: System, chains: seq<seq<int>>, t: nat)
    requires At(s, chains, t, Start)
    ensures Inv(StepStart(s, t), chains)
  {
    hide Linked, Elements, Stack, PlaceOk;
    var s' := StepStart(s, t);
    assert Evolves(s, s');
    ChainsFrame(s, s', chains);
    LocksFrame(s, s', t);
    ContentsFrame(s, s', chains);
    LogFrame(s, s');
    CallsFrame(s, s', t);
    StartedThread(s, chains, t);
    forall u: nat | u < |s.threads| && u != t ensures ThreadOk(s', chains, s.threads[u]) {
      OthersFrame(s, s', chains, chains, t, u);
    }
    StartIsNoInsert(s, chains, t);
    ThreadsFrame(s, s', chains, chains, t);
  }

  lemma StartIsNoInsert(s: System, chains: seq<seq<int>>, t: nat)
    requires |chains| == |s.buckets| > 0 && ThreadsOk(s, chains) && t < |s.threads|
    ensures s.threads[t].Busy? && (s.threads[t].pc == Start || s.threads[t].pc == Scan) ==> !s.threads[t].op.Insert?
  {
    assert ThreadOk(s, chains, s.threads[t]);
  }

  lemma StartedThread(s: System, chains: seq<seq<int>>, t: nat)
    requires At(s, chains, t, Start)
    ensures ThreadOk(StepStart(s, t), chains, StepStart(s, t).threads[t])
  {
    hide LocksOk, ContentsOk, LogOk, CallsOk;
    assert ThreadOk(s, chains, s.threads[t]);
    var b := BucketOf(s, s.threads[t].op);
    assert Linked(s.heap, s.buckets[b].head, chains[b]);
    assert forall i :: 0 <= i < |chains[b]| ==> Valid(s, chains[b][i]);
  }

  lemma ReleaseKeeps(s: System, chains: seq<seq<int>>, t: nat)
    requires At(s, chains, t, Release)
    ensures Inv(StepRelease(s, t), chains)
  {
    hide Linked, Elements, Stack, PlaceOk;
    var s' := StepRelease(s, t);
    assert Evolves(s, s');
    ChainsFrame(s, s', chains);
    ContentsFrame(s, s', chains);
    LogFrame(s, s');
    CallsFrame(s, s', t);
    ReleaseLocks(s, t);
    ReleasedThread(s, chains, t);
    forall u: nat | u < |s.threads| && u != t ensures ThreadOk(s', chains, s.threads[u]) {
      OthersFrame(s, s', chains, chains, t, u);
    }
    ThreadsFrame(s, s', chains, chains, t);
  }

  lemma ReleaseLocks(s: System, t: nat)
    requires LocksOk(s) && t < |s.threads| && s.threads[t].Busy? && s.threads[t].pc == Release
    ensures LocksOk(StepRelease(s, t))
  {
    var s' := StepRelease(s, t);
    var b := BucketOf(s, s.threads[t].op);
    forall u: nat | u < |s'.threads| && InSection(s'.threads[u])
      ensures s'.buckets[BucketOf(s', s'.threads[u].op)].flag
    {
      assert u != t && InSection(s.threads[u]);
      Alone(s, t, u);
    }
    forall c | 0 <= c < |s'.buckets| && s'.buckets[c].flag
      ensures exists u :: 0 <= u < |s'.threads| && InSection(s'.threads[u]) && BucketOf(s', s'.threads[u].op) == c
    {
      var u :| 0 <= u < |s.threads| && InSection(s.threads[u]) && BucketOf(s, s.threads[u].op) == c;
      assert InSection(s'.threads[u]) && BucketOf(s', s'.threads[u].op) == c;
    }
  }

  lemma ReleasedThread(s: System, chains: seq<seq<int>>, t: nat)
    requires At(s, chains, t, Release)
    ensures ThreadOk(StepRelease(s, t), chains, StepRelease(s, t).threads[t])
  {
    hide Linked, LocksOk, ContentsOk, LogOk, CallsOk;
    assert ThreadOk(s, chains, s.threads[t]);
  }

  lemma ReturnKeeps(s: System, chains: seq<seq<int>>, t: nat)
    requires At(s, chains, t, Return)
    ensures Pointer(s, s.threads[t].current) && Inv(StepReturn(s, t), chains)
  {
    hide Linked, Elements, Stack, PlaceOk;
    assert ThreadOk(s, chains, s.threads[t]);
    var s' := StepReturn(s, t);
    assert Evolves(s, s');
    ChainsFrame(s, s', chains);
    LocksFrame(s, s', t);
    ContentsFrame(s, s', chains);
    LogFrame(s, s');
    ReturnedCalls(s, chains, t);
    forall u: nat | u < |s.threads| && u != t ensures ThreadOk(s', chains, s.threads[u]) {
      OthersFrame(s, s', chains, chains, t, u);
    }
    ThreadsFrame(s, s', chains, chains, t);
  }

  lemma ReturnedCalls(s: System, chains: seq<seq<int>>, t: nat)
    requires At(s, chains, t, Return)
    ensures CallsOk(StepReturn(s, t))
  {
    hide Linked, LocksOk, ContentsOk, LogOk, PlaceOk;
    var s' := StepReturn(s, t);
    assert ThreadOk(s, chains, s.threads[t]);
    forall i | 0 <= i < |s'.calls| ensures CallOk(s', s'.calls[i]) {
      if i < |s.calls| {
        assert CallOk(s, s.calls[i]);
      }
    }
    forall u | 0 <= u < |s.threads| && u != t && s.threads[u].Busy? ensures s.threads[u].id != s.threads[t].id {
      if u < t {
      } else {
        assert s.threads[t].id != s.threads[u].id;
      }
    }
  }

  // ----- The steps at which an operation takes effect -----

  /** The log is a legal history of one map from keys to stacks of elements. */
  ghost predicate Legal(log: seq<Entry>) {
    forall i :: 0 <= i < |log| ==> log[i].result == Answer(log[..i], log[i].op)
  }

  lemma LegalAppend(log: seq<Entry>, e: Entry)
    requires Legal(log) && e.result == Answer(log, e.op)
    ensures Legal(log + [e])
  {
    hide Answer;
    var longer := log + [e];
    forall i | 0 <= i < |longer| ensures longer[i].result == Answer(longer[..i], longer[i].op) {
      assert longer[..i] == if i < |log| then log[..i] else log;
    }
  }

  lemma LogAppend(s: System, s': System, t: nat, chains: seq<seq<int>>, result: int)
    requires LogOk(s) && |chains| == |s.buckets| > 0 && t < |s.threads| && ThreadOk(s, chains, s.threads[t])
    requires s.threads[t].Busy? && !Effective(s.threads[t])
    requires s'.log == s.log + [Entry(s.threads[t].id, s.threads[t].op, result, s.now)]
    requires s'.now == s.now + 1 && s'.issued == s.issued && result == Answer(s.log, s.threads[t].op)
    ensures LogOk(s')
  {
    hide Answer, PlaceOk;
    assert Legal(s.log);
    LegalAppend(s.log, Entry(s.threads[t].id, s.threads[t].op, result, s.now));
  }

  lemma StackAppend(log: seq<Entry>, e: Entry, k: Key)
    ensures Stack(log + [e], k) == Effected(e.op, Stack(log, k), k)
  {
    assert (log + [e])[..|log|] == log;
  }

  /** A thread that has just taken effect and keeps its pointer. */
  lemma EffectThread(s: System, s': System, chains: seq<seq<int>>, chains': seq<seq<int>>, t: nat, result: int)
    requires |chains| == |chains'| == |s.buckets| > 0 && t < |s.threads| && ThreadOk(s, chains, s.threads[t])
    requires s.threads[t].Busy? && !Effective(s.threads[t]) && Evolves(s, s') && |s'.threads| == |s.threads|
    requires s'.log == s.log + [Entry(s.threads[t].id, s.threads[t].op, result, s.now)] && s'.now == s.now + 1
    requires s'.issued == s.issued && s'.threads[t] == s.threads[t].(pc := Release, at := |s.log|)
    requires Pointer(s, s.threads[t].current)
    requires result == if s.threads[t].op.Lookup? then ElementAt(s, s.threads[t].current) else NO_ELEMENT
    ensures ThreadOk(s', chains', s'.threads[t])
  {
    hide PlaceOk;
    assert PlaceOk(s', chains'[BucketOf(s', s'.threads[t].op)], s'.threads[t]) by {
      ReleasePlace(s', chains'[BucketOf(s', s'.threads[t].op)], s'.threads[t]);
    }
  }

  lemma ReleasePlace(s: System, chain: seq<int>, th: Thread)
    requires th.Busy? && th.pc == Release && |s.buckets| > 0
    ensures PlaceOk(s, chain, th)
  {
  }

  function Pushed(s: System, chains: seq<seq<int>>, t: nat): seq<seq<int>>
    requires |chains| == |s.buckets| > 0 && t < |s.threads| && s.threads[t].Busy?
  {
    var b := BucketOf(s, s.threads[t].op);
    chains[b := [s.threads[t].current] + chains[b]]
  }

  lemma PublishKeeps(s: System, chains: seq<seq<int>>, t: nat)
    requires At(s, chains, t, Publish)
    ensures |chains| == |s.buckets| > 0 && Inv(StepPublish(s, t), Pushed(s, chains, t))
  {
    hide Linked, Elements, Stack, PlaceOk, Nth, ContentsOk, LocksOk, ChainsOk, LogOk, CallsOk;
    PublishChains(s, chains, t);
    PublishIsInsert(s, chains, t);
    var s', chains', th := StepPublish(s, t), Pushed(s, chains, t), s.threads[t];
    assert Evolves(s, s');
    LocksFrame(s, s', t);
    CallsFrame(s, s', t);
    PublishContents(s, chains, t);
    assert ThreadOk(s, chains, th);
    LogAppend(s, s', t, chains, NO_ELEMENT);
    EffectThread(s, s', chains, chains', t, NO_ELEMENT);
    forall u: nat | u < |s.threads| && u != t ensures ThreadOk(s', chains', s.threads[u]) {
      PublishOther(s, chains, t, u);
      OthersFrame(s, s', chains, chains', t, u);
    }
    ThreadsFrame(s, s', chains, chains', t);
  }

  lemma PublishOther(s: System, chains: seq<seq<int>>, t: nat, u: nat)
    requires At(s, chains, t, Publish) && u < |s.threads| && u != t
    ensures |chains| == |s.buckets| > 0 && Untouched(s, StepPublish(s, t), chains, Pushed(s, chains, t), s.threads[u])
  {
    hide Linked, ContentsOk, LogOk, CallsOk;
    PublishIsInsert(s, chains, t);
    if InSection(s.threads[u]) {
      Alone(s, t, u);
    }
    if HoldsNode(s.threads[u]) {
      OwnNodes(s, chains, t, u);
      assert ThreadOk(s, chains, s.threads[u]);
    }
  }

  lemma PublishChains(s: System, chains: seq<seq<int>>, t: nat)
    requires At(s, chains, t, Publish)
    ensures |chains| == |s.buckets| > 0 && ChainsOk(StepPublish(s, t), Pushed(s, chains, t))
    ensures Valid(s, s.threads[t].current)
  {
    hide LocksOk, ContentsOk, LogOk, CallsOk;
    var s', th := StepPublish(s, t), s.threads[t];
    assert ThreadOk(s, chains, th);
    var b := BucketOf(s, th.op);
    assert Linked(s.heap, s.buckets[b].head, chains[b]);
    LinkedPush(s.heap, chains[b], th.current, s.buckets[b].head);
    forall c | 0 <= c < |chains| && c != b ensures Linked(s'.heap, s'.buckets[c].head, chains[c]) {
      assert Linked(s.heap, s.buckets[c].head, chains[c]);
    }
    hide Linked;
  }

  lemma LinkedPush(heap: seq<Node>, chain: seq<int>, p: int, head: int)
    requires Linked(heap, head, chain) && 0 <= p < |heap| && p !in chain && heap[p].next == head
    ensures Linked(heap, p, [p] + chain)
  {
    var longer := [p] + chain;
    forall i | 0 <= i < |longer| ensures 0 <= longer[i] < |heap| && heap[longer[i]].next == Nth(longer, i + 1) {
      if i > 0 {
        assert longer[i] == chain[i - 1] && Nth(longer, i + 1) == Nth(chain, i);
      }
    }
    assert forall i, j :: 0 <= i < j < |longer| ==> longer[i] != longer[j];
  }

  lemma PublishContents(s: System, chains: seq<seq<int>>, t: nat)
    requires At(s, chains, t, Publish) && Valid(s, s.threads[t].current) && HoldsNode(s.threads[t])
    ensures |chains| == |s.buckets| > 0 && ContentsOk(StepPublish(s, t), Pushed(s, chains, t))
  {
    hide LocksOk, LogOk, CallsOk, Linked, PlaceOk;
    var s', chains', th := StepPublish(s, t), Pushed(s, chains, t), s.threads[t];
    assert ThreadOk(s, chains, th);
    var b := BucketOf(s, th.op);
    forall k: Key ensures Elements(s'.heap, chains'[k % |s'.buckets|], k) == Stack(s'.log, k) {
      StackAppend(s.log, Entry(th.id, th.op, NO_ELEMENT, s.now), k);
      assert ([th.current] + chains[b])[1..] == chains[b];
      assert Elements(s.heap, chains[k % |s.buckets|], k) == Stack(s.log, k);
    }
  }

  // ----- Scanning -----

  /** What the scan knows when it stops at current. */
  lemma ScanStops(s: System, chains: seq<seq<int>>, t: nat)
    requires At(s, chains, t, Scan)
    requires !(Valid(s, s.threads[t].current) && s.heap[s.threads[t].current].key != s.threads[t].op.key)
    ensures var th := s.threads[t];
      && !th.op.Insert? && Pointer(s, th.current)
      && Answer(s.log, Lookup(th.op.key)) == ElementAt(s, th.current)
      && (!Valid(s, th.current) ==> Stack(s.log, th.op.key) == [])
  {
    hide LocksOk, LogOk, CallsOk, Linked;
    var th := s.threads[t];
    assert ThreadOk(s, chains, th);
    var chain := chains[BucketOf(s, th.op)];
    ElementsSkip(s.heap, chain, th.op.key, th.pos);
    assert Elements(s.heap, chain, th.op.key) == Stack(s.log, th.op.key);
    if th.pos < |chain| {
      assert chain[th.pos..][0] == th.current;
    } else {
      assert chain[th.pos..] == [];
    }
  }

  lemma ScanPointer(s: System, chains: seq<seq<int>>, t: nat)
    requires At(s, chains, t, Scan)
    ensures Pointer(s, s.threads[t].current)
  {
    hide Linked, LocksOk, ContentsOk, LogOk, CallsOk;
    assert ThreadOk(s, chains, s.threads[t]);
  }

  lemma ScanKeeps(s: System, chains: seq<seq<int>>, t: nat)
    requires At(s, chains, t, Scan)
    ensures Pointer(s, s.threads[t].current) && Inv(StepScan(s, t), chains)
  {
    hide Linked, Elements, Stack, PlaceOk, Answer, Nth;
    ScanPointer(s, chains, t);
    var s', th := StepScan(s, t), s.threads[t];
    assert Evolves(s, s');
    ChainsFrame(s, s', chains);
    LocksFrame(s, s', t);
    CallsFrame(s, s', t);
    StartIsNoInsert(s, chains, t);
    assert ThreadOk(s, chains, th);
    forall u: nat | u < |s.threads| && u != t ensures ThreadOk(s', chains, s.threads[u]) {
      OthersFrame(s, s', chains, chains, t, u);
    }
    if (Valid(s, th.current) && s.heap[th.current].key != th.op.key) || (th.op.Delete? && Valid(s, th.current)) {
      ContentsFrame(s, s', chains);
      LogFrame(s, s');
      ScannedThread(s, chains, t);
    } else {
      ScanStops(s, chains, t);
      var result := if th.op.Lookup? then ElementAt(s, th.current) else NO_ELEMENT;
      AnswerOther(s.log, th.op);
      LogAppend(s, s', t, chains, result);
      EffectThread(s, s', chains, chains, t, result);
      ScanContents(s, chains, t);
    }
    ThreadsFrame(s, s', chains, chains, t);
  }

  lemma AnswerOther(log: seq<Entry>, op: Op)
    ensures !op.Lookup? ==> Answer(log, op) == NO_ELEMENT
    ensures op.Lookup? ==> op == Lookup(op.key)
  {
  }

  lemma ScanContents(s: System, chains: seq<seq<int>>, t: nat)
    requires At(s, chains, t, Scan)
    requires !(Valid(s, s.threads[t].current) && s.heap[s.threads[t].current].key != s.threads[t].op.key)
    requires Pointer(s, s.threads[t].current) && !(s.threads[t].op.Delete? && Valid(s, s.threads[t].current))
    ensures |chains| == |s.buckets| > 0 && ContentsOk(StepScan(s, t), chains)
  {
    hide Linked, Elements, PlaceOk, LocksOk, LogOk, CallsOk, ThreadsOk;
    var s', th := StepScan(s, t), s.threads[t];
    ScanStops(s, chains, t);
    forall k: Key ensures Elements(s'.heap, chains[k % |s'.buckets|], k) == Stack(s'.log, k) {
      StackAppend(s.log, s'.log[|s.log|], k);
      assert Elements(s.heap, chains[k % |s.buckets|], k) == Stack(s.log, k);
    }
  }

  lemma ScannedPlace(s: System, chains: seq<seq<int>>, t: nat)
    requires At(s, chains, t, Scan) && Valid(s, s.threads[t].current)
    ensures var th := s.threads[t];
      var chain := chains[BucketOf(s, th.op)];
      && !th.op.Insert? && Before(s, chain, th) && th.pos < |chain|
      && s.heap[th.current].next == Nth(chain, th.pos + 1)
  {
    hide Linked, LocksOk, ContentsOk, LogOk, CallsOk;
    var th := s.threads[t];
    assert ThreadOk(s, chains, th);
    var b := BucketOf(s, th.op);
    assert Linked(s.heap, s.buckets[b].head, chains[b]);
    InList(s.heap, s.buckets[b].head, chains[b], th.pos);
  }

  lemma ScannedThread(s: System, chains: seq<seq<int>>, t: nat)
    requires At(s, chains, t, Scan) && Valid(s, s.threads[t].current)
    requires s.heap[s.threads[t].current].key != s.threads[t].op.key || s.threads[t].op.Delete?
    ensures ThreadOk(StepScan(s, t), chains, StepScan(s, t).threads[t])
  {
    hide Linked, LocksOk, ContentsOk, LogOk, CallsOk;
    ScannedPlace(s, chains, t);
    assert ThreadOk(s, chains, s.threads[t]);
  }

  // ----- Unlinking -----

  function Popped(s: System, chains: seq<seq<int>>, t: nat): seq<seq<int>>
    requires |chains| == |s.buckets| > 0 && t < |s.threads| && s.threads[t].Busy?
    requires s.threads[t].pos < |chains[BucketOf(s, s.threads[t].op)]|
  {
    var b := BucketOf(s, s.threads[t].op);
    chains[b := Without(chains[b], s.threads[t].pos)]
  }

  lemma UnlinkReady(s: System, chains: seq<seq<int>>, t: nat)
    requires At(s, chains, t, Unlink)
    ensures |chains| == |s.buckets| > 0
    ensures var th := s.threads[t];
      var chain := chains[BucketOf(s, th.op)];
      && th.op.Delete? && th.pos < |chain| && th.current == chain[th.pos] && Valid(s, th.current)
      && s.heap[th.current].key == th.op.key
      && (th.pos == 0 ==> th.previous == NIL) && (th.pos > 0 ==> th.previous == chain[th.pos - 1])
      && Pointer(s, th.previous)
      && forall i :: 0 <= i < th.pos ==> Valid(s, chain[i]) && s.heap[chain[i]].key != th.op.key
  {
    hide Linked, LocksOk, ContentsOk, LogOk, CallsOk;
    assert ThreadOk(s, chains, s.threads[t]);
  }

  lemma UnlinkKeeps(s: System, chains: seq<seq<int>>, t: nat)
    requires At(s, chains, t, Unlink)
    ensures |chains| == |s.buckets| > 0 && Valid(s, s.threads[t].current)
    ensures Pointer(s, s.threads[t].previous)
    ensures s.threads[t].pos < |chains[BucketOf(s, s.threads[t].op)]|
    ensures Inv(StepUnlink(s, t), Popped(s, chains, t))
  {
    hide Linked, Elements, Stack, PlaceOk, Nth, ContentsOk, LocksOk, ChainsOk, LogOk, CallsOk, Answer;
    UnlinkReady(s, chains, t);
    var s', chains', th := StepUnlink(s, t), Popped(s, chains, t), s.threads[t];
    assert Evolves(s, s');
    UnlinkChains(s, chains, t);
    LocksFrame(s, s', t);
    CallsFrame(s, s', t);
    UnlinkContents(s, chains, t);
    assert ThreadOk(s, chains, th);
    AnswerOther(s.log, th.op);
    LogAppend(s, s', t, chains, NO_ELEMENT);
    EffectThread(s, s', chains, chains', t, NO_ELEMENT);
    forall u: nat | u < |s.threads| && u != t ensures ThreadOk(s', chains', s.threads[u]) {
      UnlinkOther(s, chains, t, u);
      OthersFrame(s, s', chains, chains', t, u);
    }
    ThreadsFrame(s, s', chains, chains', t);
  }

  lemma UnlinkOther(s: System, chains: seq<seq<int>>, t: nat, u: nat)
    requires At(s, chains, t, Unlink) && u < |s.threads| && u != t
    requires |chains| == |s.buckets| > 0 && Valid(s, s.threads[t].current)
    requires s.threads[t].previous == NIL || Valid(s, s.threads[t].previous)
    requires s.threads[t].pos < |chains[BucketOf(s, s.threads[t].op)]|
    ensures Untouched(s, StepUnlink(s, t), chains, Popped(s, chains, t), s.threads[u])
  {
    hide Linked, ContentsOk, LogOk, CallsOk;
    UnlinkReady(s, chains, t);
    assert ThreadOk(s, chains, s.threads[u]);
    if InSection(s.threads[u]) {
      Alone(s, t, u);
    }
    if HoldsNode(s.threads[u]) {
      NodeOutside(s, chains, u);
    }
  }

  lemma UnlinkList(s: System, chains: seq<seq<int>>, t: nat, c: nat)
    requires At(s, chains, t, Unlink)
    requires |chains| == |s.buckets| > 0 && Valid(s, s.threads[t].current)
    requires s.threads[t].previous == NIL || Valid(s, s.threads[t].previous)
    requires s.threads[t].pos < |chains[BucketOf(s, s.threads[t].op)]| && c < |chains|
    ensures Linked(StepUnlink(s, t).heap, StepUnlink(s, t).buckets[c].head, Popped(s, chains, t)[c])
  {
    hide LocksOk, ContentsOk, LogOk, CallsOk, ThreadsOk, Nth, Without;
    UnlinkReady(s, chains, t);
    var s', th := StepUnlink(s, t), s.threads[t];
    assert Linked(s.heap, s.buckets[c].head, chains[c]);
    if c == BucketOf(s, th.op) {
      LinkedWithout(s.heap, s.buckets[c].head, chains[c], th.pos);
    } else {
      LinkedFrame(s.heap, s'.heap, s.buckets[c].head, chains[c]);
    }
  }

  lemma UnlinkChains(s: System, chains: seq<seq<int>>, t: nat)
    requires At(s, chains, t, Unlink)
    requires |chains| == |s.buckets| > 0 && Valid(s, s.threads[t].current)
    requires s.threads[t].previous == NIL || Valid(s, s.threads[t].previous)
    requires s.threads[t].pos < |chains[BucketOf(s, s.threads[t].op)]|
    ensures ChainsOk(StepUnlink(s, t), Popped(s, chains, t))
  {
    hide LocksOk, ContentsOk, LogOk, CallsOk, ThreadsOk, Linked, Without;
    var s', chains', th := StepUnlink(s, t), Popped(s, chains, t), s.threads[t];
    forall c: nat | c < |chains'| ensures Linked(s'.heap, s'.buckets[c].head, chains'[c]) {
      UnlinkList(s, chains, t, c);
    }
    forall c: nat, i: nat | c < |chains'| && i < |chains'[c]|
      ensures Valid(s', chains'[c][i]) && s'.heap[chains'[c][i]].key % |s'.buckets| == c
    {
      if c == BucketOf(s, th.op) {
        WithoutLength(chains[c], th.pos);
        WithoutAt(chains[c], th.pos, i);
      }
    }
  }

  lemma WithoutLength(chain: seq<int>, i: nat)
    requires i < |chain|
    ensures |Without(chain, i)| == |chain| - 1
  {
  }

  lemma WithoutAt(chain: seq<int>, i: nat, j: nat)
    requires i < |chain| && j < |chain| - 1
    ensures Without(chain, i)[j] == chain[if j < i then j else j + 1]
    ensures Nth(Without(chain, i), j + 1) == Nth(chain, if j + 1 < i then j + 1 else j + 2)
  {
  }

  function Bypass(heap: seq<Node>, chain: seq<int>, i: nat): seq<Node>
    requires i < |chain| && 0 <= chain[i] < |heap| && (i > 0 ==> 0 <= chain[i - 1] < |heap|)
  {
    if i == 0 then heap else heap[chain[i - 1] := heap[chain[i - 1]].(next := heap[chain[i]].next)]
  }

  lemma InList(heap: seq<Node>, head: int, chain: seq<int>, i: nat)
    requires Linked(heap, head, chain) && i < |chain|
    ensures 0 <= chain[i] < |heap| && heap[chain[i]].next == Nth(chain, i + 1) && (i == 0 ==> chain[i] == head)
    ensures forall j :: 0 <= j < |chain| && j != i ==> chain[j] != chain[i]
  {
  }

  lemma BypassAt(heap: seq<Node>, head: int, chain: seq<int>, i: nat, j: nat)
    requires Linked(heap, head, chain) && i < |chain| && j < |chain| - 1
    requires 0 <= chain[i] < |heap| && (i > 0 ==> 0 <= chain[i - 1] < |heap|)
    ensures |Without(chain, i)| == |chain| - 1
    ensures var r, heap' := Without(chain, i), Bypass(heap, chain, i);
            0 <= r[j] < |heap'| && heap'[r[j]].next == Nth(r, j + 1)
    ensures forall k :: j < k < |chain| - 1 ==> Without(chain, i)[j] != Without(chain, i)[k]
  {
    hide Linked, Without;
    WithoutLength(chain, i);
    WithoutAt(chain, i, j);
    InList(heap, head, chain, i);
    InList(heap, head, chain, if j < i then j else j + 1);
    forall k | j < k < |chain| - 1 ensures Without(chain, i)[j] != Without(chain, i)[k] {
      WithoutAt(chain, i, k);
    }
  }

  lemma LinkedWithout(heap: seq<Node>, head: int, chain: seq<int>, i: nat)
    requires Linked(heap, head, chain) && i < |chain|
    ensures 0 <= chain[i] < |heap| && (i > 0 ==> 0 <= chain[i - 1] < |heap|)
    ensures Linked(Bypass(heap, chain, i), if i == 0 then heap[chain[i]].next else head, Without(chain, i))
  {
    hide Bypass, Without;
    InList(heap, head, chain, i);
    WithoutLength(chain, i);
    forall j: nat | j < |chain| - 1
      ensures 0 <= Without(chain, i)[j] < |Bypass(heap, chain, i)|
      ensures Bypass(heap, chain, i)[Without(chain, i)[j]].next == Nth(Without(chain, i), j + 1)
      ensures forall k :: j < k < |chain| - 1 ==> Without(chain, i)[j] != Without(chain, i)[k]
    {
      BypassAt(heap, head, chain, i, j);
    }
    if |chain| > 1 {
      WithoutAt(chain, i, 0);
    }
  }

  lemma UnlinkContents(s: System, chains: seq<seq<int>>, t: nat)
    requires At(s, chains, t, Unlink)
    requires |chains| == |s.buckets| > 0 && Valid(s, s.threads[t].current)
    requires s.threads[t].previous == NIL || Valid(s, s.threads[t].previous)
    requires s.threads[t].pos < |chains[BucketOf(s, s.threads[t].op)]|
    ensures ContentsOk(StepUnlink(s, t), Popped(s, chains, t))
  {
    hide LocksOk, LogOk, CallsOk, Linked, PlaceOk, ThreadsOk, Elements, Here;
    UnlinkReady(s, chains, t);
    var s', chains', th := StepUnlink(s, t), Popped(s, chains, t), s.threads[t];
    var b := BucketOf(s, th.op);
    forall k: Key ensures Elements(s'.heap, chains'[k % |s'.buckets|], k) == Stack(s'.log, k) {
      StackAppend(s.log, Entry(th.id, th.op, NO_ELEMENT, s.now), k);
      var chain := chains[k % |s.buckets|];
      assert Elements(s.heap, chain, k) == Stack(s.log, k);
      assert forall i :: 0 <= i < |chain| ==> 0 <= chain[i] < |s.heap|;
      ElementsFrame(s.heap, s'.heap, chains'[k % |s.buckets|], k);
      if k % |s.buckets| == b {
        ElementsWithout(s.heap, chain, th.pos, k);
      }
    }
  }

  // ----- Every run -----

  lemma InitialInv(buckets: nat, threads: nat)
    requires buckets > 0
    ensures Inv(Initial(buckets, threads), seq(buckets, _ => []))
  {
  }

  /** No step follows a null or dangling pointer. */
  lemma StepDefined(s: System, chains: seq<seq<int>>, t: nat)
    requires Inv(s, chains) && t < |s.threads|
    ensures Defined(s, t)
  {
    hide Linked, LocksOk, ContentsOk, LogOk, CallsOk;
    if s.threads[t].Busy? {
      assert ThreadOk(s, chains, s.threads[t]);
      if s.threads[t].pc == Unlink {
        UnlinkReady(s, chains, t);
      } else if s.threads[t].pc == Scan {
        ScanPointer(s, chains, t);
      }
    }
  }

  lemma StepKeeps(s: System, chains: seq<seq<int>>, t: nat, op: Op) returns (chains': seq<seq<int>>)
    requires Inv(s, chains) && t < |s.threads|
    ensures Defined(s, t) && Inv(Step(s, t, op), chains')
  {
    hide Inv, StepAcquire, StepLink, StepPublish, StepStart, StepScan, StepUnlink, StepRelease, StepReturn, Pushed,
      Popped;
    StepDefined(s, chains, t);
    chains' := chains;
    if s.threads[t].Idle? {
      InvokeKeeps(s, chains, t, op);
    } else {
      match s.threads[t].pc {
        case Acquire => AcquireKeeps(s, chains, t);
        case Link => LinkKeeps(s, chains, t);
        case Publish =>
          PublishKeeps(s, chains, t);
          chains' := Pushed(s, chains, t);
        case Start => StartKeeps(s, chains, t);
        case Scan => ScanKeeps(s, chains, t);
        case Unlink =>
          UnlinkKeeps(s, chains, t);
          chains' := Popped(s, chains, t);
        case Release => ReleaseKeeps(s, chains, t);
        case Return => ReturnKeeps(s, chains, t);
      }
    }
  }

  /** Which thread steps, and what it calls if it is idle. */
  datatype Choice = Choice(thread: nat, op: Op)

  /** states are what a schedule passes through, starting from an empty table. */
  ghost predicate Run(states: seq<System>, schedule: seq<Choice>, buckets: nat, threads: nat) {
    && buckets > 0 && |states| == |schedule| + 1 && states[0] == Initial(buckets, threads)
    && forall k :: 0 <= k < |schedule| ==> Follows(states[k], schedule[k], states[k + 1])
  }

  ghost predicate Follows(s: System, c: Choice, s': System) {
    c.thread < |s.threads| && Defined(s, c.thread) && s' == Step(s, c.thread, c.op)
  }

  lemma {:induction false} RunInv(states: seq<System>, schedule: seq<Choice>, buckets: nat, threads: nat, k: nat)
      returns (chains: seq<seq<int>>)
    requires Run(states, schedule, buckets, threads) && k < |states|
    ensures Inv(states[k], chains)
  {
    hide Inv, Step, Defined;
    if k == 0 {
      InitialInv(buckets, threads);
      chains := seq(buckets, _ => []);
    } else {
      var before := RunInv(states, schedule, buckets, threads, k - 1);
      assert Follows(states[k - 1], schedule[k - 1], states[k - 1 + 1]);
      chains := StepKeeps(states[k - 1], before, schedule[k - 1].thread, schedule[k - 1].op);
    }
  }

  /** Every schedule can go on: in no reachable state does any thread hold a pointer it is about to
      follow that is no node. What is tested against null, in the scan and in the read after the
      lock is released, is null or a node; what is not tested is a node. */
  lemma NeverStuck(states: seq<System>, schedule: seq<Choice>, buckets: nat, threads: nat, k: nat, t: nat)
    requires Run(states, schedule, buckets, threads) && k < |states| && t < |states[k].threads|
    ensures Defined(states[k], t)
    ensures var s, th := states[k], states[k].threads[t];
      && (th.Busy? && (th.pc == Scan || th.pc == Return) ==> Pointer(s, th.current))
      && (th.Busy? && (th.pc == Link || th.pc == Publish || th.pc == Unlink) ==> Valid(s, th.current))
      && (th.Busy? && (th.pc == Scan || th.pc == Unlink) ==> Pointer(s, th.previous))
  {
    hide Inv;
    var chains := RunInv(states, schedule, buckets, threads, k);
    StepDefined(states[k], chains, t);
    HeldPointers(states[k], chains, t);
  }

  lemma HeldPointers(s: System, chains: seq<seq<int>>, t: nat)
    requires Inv(s, chains) && t < |s.threads|
    ensures var th := s.threads[t];
      && (th.Busy? && th.pc == Publish ==> Valid(s, th.current))
      && (th.Busy? && th.pc == Scan ==> Pointer(s, th.previous))
  {
    hide Linked, LocksOk, ContentsOk, LogOk, CallsOk;
    assert ThreadOk(s, chains, s.threads[t]);
  }

  ghost predicate Inside(s: System, t: nat, b: nat)
    requires |s.buckets| > 0
  {
    t < |s.threads| && InSection(s.threads[t]) && BucketOf(s, s.threads[t].op) == b
  }

  /** Two threads are never inside the critical section of one bucket, and a bucket's flag is set
      exactly while a thread is inside. */
  lemma MutualExclusion(states: seq<System>, schedule: seq<Choice>, buckets: nat, threads: nat, k: nat)
    requires Run(states, schedule, buckets, threads) && k < |states|
    ensures |states[k].buckets| > 0
    ensures forall t, u, b :: Inside(states[k], t, b) && Inside(states[k], u, b) ==> t == u
    ensures forall b :: 0 <= b < |states[k].buckets| ==>
              (states[k].buckets[b].flag <==> exists t :: Inside(states[k], t, b))
  {
    hide ChainsOk, ThreadsOk, ContentsOk, LogOk, CallsOk;
    var chains := RunInv(states, schedule, buckets, threads, k);
    var s := states[k];
    forall t: nat, u: nat, b: nat | Inside(s, t, b) && Inside(s, u, b) ensures t == u {
      if t != u {
        Alone(s, t, u);
      }
    }
    forall b | 0 <= b < |s.buckets| && s.buckets[b].flag ensures exists t :: Inside(s, t, b) {
      var t :| 0 <= t < |s.threads| && InSection(s.threads[t]) && BucketOf(s, s.threads[t].op) == b;
      assert Inside(s, t, b);
    }
  }

  /** A call returned what its one entry in the log says, and the entry falls within the call. */
  ghost predicate Explained(log: seq<Entry>, c: Call) {
    && c.at < |log| && log[c.at].id == c.id && log[c.at].op == c.op && log[c.at].result == c.result
    && c.invoked < log[c.at].time < c.returned
  }

  /** Entry i of the log is that of a call that has returned, or of one that a thread is still in. */
  ghost predicate Accounted(s: System, i: nat) {
    || (exists j :: 0 <= j < |s.calls| && s.calls[j].at == i)
    || (exists t :: 0 <= t < |s.threads| && Effective(s.threads[t]) && s.threads[t].at == i)
  }

  ghost predicate AllAccounted(s: System) {
    forall i: nat :: i < |s.log| ==> Accounted(s, i)
  }

  /** A step adds one entry at most, that of the thread that takes it, and loses sight of none: the
      thread stays with its entry until it returns. */
  lemma StepRecords(s: System, c: Choice, s': System)
    requires Follows(s, c, s')
    ensures var th := s.threads[c.thread];
      && |s'.threads| == |s.threads|
      && (forall u :: 0 <= u < |s.threads| && u != c.thread ==> s'.threads[u] == s.threads[u])
      && |s.log| <= |s'.log| <= |s.log| + 1 && s.calls <= s'.calls
      && (|s'.log| == |s.log| + 1 ==> Effective(s'.threads[c.thread]) && s'.threads[c.thread].at == |s.log|)
      && (Effective(th) ==> if th.pc == Return then |s'.calls| == |s.calls| + 1 && s'.calls[|s.calls|].at == th.at
                            else Effective(s'.threads[c.thread]) && s'.threads[c.thread].at == th.at)
  {
  }

  lemma StepAccounts(s: System, c: Choice, s': System)
    requires Follows(s, c, s') && AllAccounted(s)
    ensures AllAccounted(s')
  {
    StepRecords(s, c, s');
    hide Follows;
    var t := c.thread;
    forall i: nat | i < |s'.log| ensures Accounted(s', i) {
      if i == |s.log| {
        assert Effective(s'.threads[t]) && s'.threads[t].at == i;
      } else if j :| 0 <= j < |s.calls| && s.calls[j].at == i {
        assert s'.calls[j].at == i;
      } else {
        assert Accounted(s, i);
        var u :| 0 <= u < |s.threads| && Effective(s.threads[u]) && s.threads[u].at == i;
        if u == t && s.threads[t].pc == Return {
          assert s'.calls[|s.calls|].at == i;
        } else {
          assert Effective(s'.threads[u]) && s'.threads[u].at == i;
        }
      }
    }
  }

  lemma {:induction false} RunAccounts(states: seq<System>, schedule: seq<Choice>, buckets: nat, threads: nat, k: nat)
    requires Run(states, schedule, buckets, threads) && k < |states|
    ensures AllAccounted(states[k])
  {
    hide Follows, Accounted;
    if k > 0 {
      RunAccounts(states, schedule, buckets, threads, k - 1);
      StepAccounts(states[k - 1], schedule[k - 1], states[k - 1 + 1]);
    }
  }

  // ----- The operations are those asked for -----

  /** At step `from` of the schedule idle thread t was asked for op, and has been busy with it up to
      state `to`. */
  ghost predicate Under(states: seq<System>, schedule: seq<Choice>, t: nat, op: Op, from: nat, to: nat) {
    && from < to < |states| && from < |schedule| && schedule[from] == Choice(t, op)
    && t < |states[from].threads| && states[from].threads[t].Idle?
    && forall m :: from < m <= to ==> BusySince(states[m], t, op, from)
  }

  predicate BusySince(s: System, t: nat, op: Op, from: nat) {
    t < |s.threads| && s.threads[t].Busy? && s.threads[t].op == op && s.threads[t].invoked == from
  }

  /** Call c is one that the schedule asked for, and it returned at the step it says. */
  ghost predicate Genuine(states: seq<System>, schedule: seq<Choice>, c: Call) {
    exists t: nat ::
      Under(states, schedule, t, c.op, c.invoked, c.returned) && ReturnsAt(states, schedule, t, c.returned)
  }

  predicate ReturnsAt(states: seq<System>, schedule: seq<Choice>, t: nat, k: nat) {
    && k < |schedule| && k + 1 < |states| && schedule[k].thread == t
    && t < |states[k + 1].threads| && states[k + 1].threads[t].Idle?
  }

  /** The step is a new call. */
  predicate Asked(s: System, c: Choice) {
    c.thread < |s.threads| && s.threads[c.thread].Idle?
  }

  /** What thread t was asked for at step k is under way in state s, or has returned. */
  ghost predicate Answered(s: System, t: nat, k: nat) {
    || (t < |s.threads| && s.threads[t].Busy? && s.threads[t].invoked == k)
    || (exists j :: 0 <= j < |s.calls| && s.calls[j].invoked == k)
  }

  /** What one step does to operations under way and to the calls returned. */
  lemma StepOperations(s: System, c: Choice, s': System)
    requires Follows(s, c, s')
    ensures |s'.threads| == |s.threads| && s'.now == s.now + 1
    ensures forall u :: 0 <= u < |s.threads| && u != c.thread ==> s'.threads[u] == s.threads[u]
    ensures var th, th' := s.threads[c.thread], s'.threads[c.thread];
      && (th.Idle? ==> BusySince(s', c.thread, c.op, s.now))
      && (th.Busy? && th'.Busy? ==> th'.op == th.op && th'.invoked == th.invoked)
      && (if th.Busy? && th'.Idle? then
            exists c': Call ::
              s'.calls == s.calls + [c'] && c'.op == th.op && c'.invoked == th.invoked && c'.returned == s.now
          else s'.calls == s.calls)
  {
    hide ElementAt, ChainsOk;
    var th := s.threads[c.thread];
    if th.Busy? && th.pc == Return {
      assert s'.calls == s.calls + [s'.calls[|s.calls|]];
    }
  }

  lemma {:induction false} Clock(states: seq<System>, schedule: seq<Choice>, buckets: nat, threads: nat, k: nat)
    requires Run(states, schedule, buckets, threads) && k < |states|
    ensures states[k].now == k && |states[k].threads| == threads
  {
    hide Follows;
    if k > 0 {
      Clock(states, schedule, buckets, threads, k - 1);
      StepOperations(states[k - 1], schedule[k - 1], states[k - 1 + 1]);
    }
  }

  lemma {:induction false} BusyUnder(states: seq<System>, schedule: seq<Choice>, buckets: nat, threads: nat,
                                     k: nat, t: nat)
    requires Run(states, schedule, buckets, threads) && k < |states|
    requires t < |states[k].threads| && states[k].threads[t].Busy?
    ensures Under(states, schedule, t, states[k].threads[t].op, states[k].threads[t].invoked, k)
  {
    hide Follows;
    if k > 0 {
      var s, c, s' := states[k - 1], schedule[k - 1], states[k];
      assert Follows(states[k - 1], schedule[k - 1], states[k - 1 + 1]);
      StepOperations(s, c, s');
      Clock(states, schedule, buckets, threads, k - 1);
      assert c.thread < |s.threads| by {
        StepThread(s, c, s');
      }
      if s.threads[t].Busy? {
        BusyUnder(states, schedule, buckets, threads, k - 1, t);
      }
    }
  }

  lemma StepThread(s: System, c: Choice, s': System)
    requires Follows(s, c, s')
    ensures c.thread < |s.threads|
  {
  }

  lemma {:induction false} CallsGenuine(states: seq<System>, schedule: seq<Choice>, buckets: nat, threads: nat, k: nat)
    requires Run(states, schedule, buckets, threads) && k < |states|
    ensures forall j :: 0 <= j < |states[k].calls| ==> Genuine(states, schedule, states[k].calls[j])
  {
    hide Follows, Under;
    if k > 0 {
      var s, c, s' := states[k - 1], schedule[k - 1], states[k];
      assert Follows(states[k - 1], schedule[k - 1], states[k - 1 + 1]);
      CallsGenuine(states, schedule, buckets, threads, k - 1);
      StepOperations(s, c, s');
      StepThread(s, c, s');
      Clock(states, schedule, buckets, threads, k - 1);
      if s.threads[c.thread].Busy? && s'.threads[c.thread].Idle? {
        BusyUnder(states, schedule, buckets, threads, k - 1, c.thread);
        assert ReturnsAt(states, schedule, c.thread, k - 1);
      }
    }
  }

  lemma {:induction false} InvocationAnswered(states: seq<System>, schedule: seq<Choice>, buckets: nat, threads: nat,
                                              m: nat, k: nat)
    requires Run(states, schedule, buckets, threads) && m < k < |states|
    requires Asked(states[m], schedule[m])
    ensures Answered(states[k], schedule[m].thread, m)
  {
    hide Follows;
    var s, c, s' := states[k - 1], schedule[k - 1], states[k];
    assert Follows(states[k - 1], schedule[k - 1], states[k - 1 + 1]);
    StepOperations(s, c, s');
    StepThread(s, c, s');
    Clock(states, schedule, buckets, threads, k - 1);
    if m < k - 1 {
      InvocationAnswered(states, schedule, buckets, threads, m, k - 1);
      if j :| 0 <= j < |s.calls| && s.calls[j].invoked == m {
        assert s'.calls[j].invoked == m;
      } else {
        var t := schedule[m].thread;
        assert s.threads[t].Busy? && s.threads[t].invoked == m;
        if s'.threads[t].Idle? {
          assert s'.calls[|s.calls|].invoked == m;
        }
      }
    }
  }

  /** The calls of a run are those its schedule asked for: each returned one was asked for when it says
      and ran until it says, each one asked for has returned or is under way, and so are all that
      threads are busy with. */
  ghost predicate Faithful(states: seq<System>, schedule: seq<Choice>) {
    && |states| == |schedule| + 1
    && var s := states[|schedule|];
    && (forall j :: 0 <= j < |s.calls| ==> Genuine(states, schedule, s.calls[j]))
    && (forall t: nat :: t < |s.threads| && s.threads[t].Busy? ==>
          Under(states, schedule, t, s.threads[t].op, s.threads[t].invoked, |schedule|))
    && (forall m: nat :: m < |schedule| && Asked(states[m], schedule[m]) ==> Answered(s, schedule[m].thread, m))
  }

  lemma RunFaithful(states: seq<System>, schedule: seq<Choice>, buckets: nat, threads: nat)
    requires Run(states, schedule, buckets, threads)
    ensures Faithful(states, schedule)
  {
    hide Follows, Genuine, Under, Answered;
    var k := |schedule|;
    CallsGenuine(states, schedule, buckets, threads, k);
    forall t: nat | t < |states[k].threads| && states[k].threads[t].Busy?
      ensures Under(states, schedule, t, states[k].threads[t].op, states[k].threads[t].invoked, k)
    {
      BusyUnder(states, schedule, buckets, threads, k, t);
    }
    forall m: nat | m < k && Asked(states[m], schedule[m])
      ensures Answered(states[k], schedule[m].thread, m)
    {
      InvocationAnswered(states, schedule, buckets, threads, m, k);
    }
  }

  /** Linearizability: every returned call has its own place in a legal sequential history, a call
      that returned before another was made comes before it, the history holds nothing else than
      these calls and some of those still under way, and all of them are what the threads were asked
      to do. */
  lemma Linearizable(states: seq<System>, schedule: seq<Choice>, buckets: nat, threads: nat)
    requires Run(states, schedule, buckets, threads)
    ensures var s := states[|schedule|];
      && Legal(s.log)
      && (forall i :: 0 <= i < |s.calls| ==> Explained(s.log, s.calls[i]))
      && (forall i, j :: 0 <= i < j < |s.calls| ==> s.calls[i].at != s.calls[j].at)
      && (forall i, j :: 0 <= i < |s.calls| && 0 <= j < |s.calls| && s.calls[i].returned <= s.calls[j].invoked ==>
            s.calls[i].at < s.calls[j].at)
      && (forall i: nat :: i < |s.log| ==> Accounted(s, i))
      && (forall t :: 0 <= t < |s.threads| && Effective(s.threads[t]) ==>
            && s.threads[t].at < |s.log|
            && s.log[s.threads[t].at].id == s.threads[t].id && s.log[s.threads[t].at].op == s.threads[t].op)
      && Faithful(states, schedule)
  {
    hide ChainsOk, ContentsOk, LocksOk, Answer, PlaceOk, Accounted, Faithful;
    RunFaithful(states, schedule, buckets, threads);
    RunAccounts(states, schedule, buckets, threads, |schedule|);
    var chains := RunInv(states, schedule, buckets, threads, |schedule|);
    var s := states[|schedule|];
    forall i | 0 <= i < |s.calls| ensures Explained(s.log, s.calls[i]) {
      assert CallOk(s, s.calls[i]);
    }
    forall i, j | 0 <= i < |s.calls| && 0 <= j < |s.calls| && s.calls[i].returned <= s.calls[j].invoked
      ensures s.calls[i].at < s.calls[j].at {
      assert Explained(s.log, s.calls[i]) && Explained(s.log, s.calls[j]);
      TimesOrder(s, s.calls[i].at, s.calls[j].at);
    }
  }

  lemma TimesOrder(s: System, i: nat, j: nat)
    requires LogOk(s) && i < |s.log| && j < |s.log| && s.log[i].time < s.log[j].time
    ensures i < j
  {
    hide Answer;
  }
}
