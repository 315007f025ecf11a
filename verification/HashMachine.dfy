/** The concurrent hash table, one statement or loop iteration a step: any number of threads insert,
    delete and look up, each bucket being a linked list behind a spin lock taken by atomic exchange. */
module HashMachine {
  const NIL: int := -1
  const NO_ELEMENT: int := 0    // the null pointer returned when a key is absent

  type Key = nat

  datatype Op = Insert(key: Key, element: int) | Delete(key: Key) | Lookup(key: Key)

  datatype Node = Node(key: Key, element: int, next: int)

  datatype Bucket = Bucket(flag: bool, head: int)

  /** What a thread is about to do. */
  datatype Pc = Acquire | Link | Publish | Start | Scan | Unlink | Release | Return

  /** current and previous are the locals of the list functions. The rest is history: id and invoked
      identify the call, pos is the place of current in the list, at the index of the call's entry in
      the log. */
  datatype Thread =
    | Idle
    | Busy(op: Op, pc: Pc, current: int, previous: int, id: nat, invoked: nat, pos: nat, at: nat)

  /** One operation taking effect. */
  datatype Entry = Entry(id: nat, op: Op, result: int, time: nat)

  /** One operation that has returned. */
  datatype Call = Call(id: nat, op: Op, result: int, invoked: nat, returned: nat, at: nat)

  /** heap, buckets and threads are the program; log, calls, issued and now record its history. */
  datatype System = System(heap: seq<Node>, buckets: seq<Bucket>, threads: seq<Thread>,
                           log: seq<Entry>, calls: seq<Call>, issued: nat, now: nat)

  // ----- Steps -----

  function BucketOf(s: System, op: Op): nat
    requires |s.buckets| > 0
  {
    op.key % |s.buckets|
  }

  predicate Valid(s: System, p: int) {
    0 <= p < |s.heap|
  }

  /** p is the null pointer or the address of a node. */
  predicate Pointer(s: System, p: int) {
    p == NIL || Valid(s, p)
  }

  function ElementAt(s: System, p: int): int
    requires Pointer(s, p)
  {
    if p != NIL then s.heap[p].element else NO_ELEMENT
  }

  function Put(s: System, t: nat, th: Thread): System
    requires t < |s.threads|
  {
    s.(threads := s.threads[t := th], now := s.now + 1)
  }

  /** A call: malloc and the filling of the node come before any shared access. */
  function Invoke(s: System, t: nat, op: Op): System
    requires t < |s.threads|
  {
    var th := Busy(op, Acquire, if op.Insert? then |s.heap| else NIL, NIL, s.issued, s.now, 0, 0);
    Put(s, t, th).(heap := if op.Insert? then s.heap + [Node(op.key, op.element, NIL)] else s.heap,
                   issued := s.issued + 1)
  }

  /** One exchange on the flag: whoever reads 0 has the lock. */
  function StepAcquire(s: System, t: nat): System
    requires t < |s.threads| && s.threads[t].Busy? && |s.buckets| > 0
  {
    var th := s.threads[t];
    var b := BucketOf(s, th.op);
    var was := s.buckets[b].flag;
    var next := if was then Acquire else if th.op.Insert? then Link else Start;
    Put(s, t, th.(pc := next)).(buckets := s.buckets[b := s.buckets[b].(flag := true)])
  }

  function StepLink(s: System, t: nat): System
    requires t < |s.threads| && s.threads[t].Busy? && |s.buckets| > 0 && Valid(s, s.threads[t].current)
  {
    var th := s.threads[t];
    var head := s.buckets[BucketOf(s, th.op)].head;
    Put(s, t, th.(pc := Publish)).(heap := s.heap[th.current := s.heap[th.current].(next := head)])
  }

  /** The operation of thread t takes effect with the given result. */
  function Effect(s: System, t: nat, result: int): System
    requires t < |s.threads| && s.threads[t].Busy?
  {
    var th := s.threads[t];
    Put(s, t, th.(pc := Release, at := |s.log|)).(log := s.log + [Entry(th.id, th.op, result, s.now)])
  }

  function StepPublish(s: System, t: nat): System
    requires t < |s.threads| && s.threads[t].Busy? && |s.buckets| > 0
  {
    var th := s.threads[t];
    var b := BucketOf(s, th.op);
    Effect(s, t, NO_ELEMENT).(buckets := s.buckets[b := s.buckets[b].(head := th.current)])
  }

  function StepStart(s: System, t: nat): System
    requires t < |s.threads| && s.threads[t].Busy? && |s.buckets| > 0
  {
    var th := s.threads[t];
    Put(s, t, th.(pc := Scan, current := s.buckets[BucketOf(s, th.op)].head, previous := NIL, pos := 0))
  }

  function StepScan(s: System, t: nat): System
    requires t < |s.threads| && s.threads[t].Busy? && Pointer(s, s.threads[t].current)
  {
    var th := s.threads[t];
    if th.current != NIL && s.heap[th.current].key != th.op.key then
      Put(s, t, th.(previous := th.current, current := s.heap[th.current].next, pos := th.pos + 1))
    else if th.op.Delete? && th.current != NIL then Put(s, t, th.(pc := Unlink))
    else Effect(s, t, if th.op.Lookup? then ElementAt(s, th.current) else NO_ELEMENT)
  }

  function StepUnlink(s: System, t: nat): System
    requires t < |s.threads| && s.threads[t].Busy? && |s.buckets| > 0 && Valid(s, s.threads[t].current)
    requires Pointer(s, s.threads[t].previous)
  {
    var th := s.threads[t];
    var b := BucketOf(s, th.op);
    var next := s.heap[th.current].next;
    var s' := Effect(s, t, NO_ELEMENT);
    if th.previous == NIL then s'.(buckets := s.buckets[b := s.buckets[b].(head := next)])
    else s'.(heap := s.heap[th.previous := s.heap[th.previous].(next := next)])
  }

  function StepRelease(s: System, t: nat): System
    requires t < |s.threads| && s.threads[t].Busy? && |s.buckets| > 0
  {
    var th := s.threads[t];
    var b := BucketOf(s, th.op);
    Put(s, t, th.(pc := Return)).(buckets := s.buckets[b := s.buckets[b].(flag := false)])
  }

  /** The lock is released already when List_Lookup reads the element. */
  function StepReturn(s: System, t: nat): System
    requires t < |s.threads| && s.threads[t].Busy? && Pointer(s, s.threads[t].current)
  {
    var th := s.threads[t];
    var result := if th.op.Lookup? then ElementAt(s, th.current) else NO_ELEMENT;
    Put(s, t, Idle).(calls := s.calls + [Call(th.id, th.op, result, th.invoked, s.now, th.at)])
  }

  /** The pointers thread t is about to follow are good: the node it links or unlinks exists, and
      what it tests against null before following it is null or a node. */
  predicate Defined(s: System, t: nat)
    requires t < |s.threads|
  {
    var th := s.threads[t];
    && |s.buckets| > 0
    && (th.Busy? && (th.pc == Link || th.pc == Unlink) ==> Valid(s, th.current))
    && (th.Busy? && th.pc == Unlink ==> Pointer(s, th.previous))
    && (th.Busy? && (th.pc == Scan || th.pc == Return) ==> Pointer(s, th.current))
  }

  /** Thread t takes its next step; op is what it calls when it is idle. */
  function Step(s: System, t: nat, op: Op): System
    requires t < |s.threads| && Defined(s, t)
  {
    var th := s.threads[t];
    if th.Idle? then Invoke(s, t, op)
    else match th.pc
      case Acquire => StepAcquire(s, t)
      case Link => StepLink(s, t)
      case Publish => StepPublish(s, t)
      case Start => StepStart(s, t)
      case Scan => StepScan(s, t)
      case Unlink => StepUnlink(s, t)
      case Release => StepRelease(s, t)
      case Return => StepReturn(s, t)
  }

  function Initial(buckets: nat, threads: nat): System {
    System([], seq(buckets, _ => Bucket(false, NIL)), seq(threads, _ => Idle), [], [], 0, 0)
  }

  // ----- The sequential meaning -----

  /** One operation on the stack of elements under key k. */
  function Effected(op: Op, before: seq<int>, k: Key): seq<int> {
    if op.key != k then before
    else if op.Insert? then [op.element] + before
    else if op.Delete? && before != [] then before[1..]
    else before
  }

  /** The elements under key k, newest first, after the logged operations. */
  function Stack(log: seq<Entry>, k: Key): seq<int> {
    if log == [] then [] else Effected(log[|log| - 1].op, Stack(log[..|log| - 1], k), k)
  }

  function Answer(log: seq<Entry>, op: Op): int {
    if op.Lookup? && Stack(log, op.key) != [] then Stack(log, op.key)[0] else NO_ELEMENT
  }

  // ----- The invariant -----

  predicate InSection(th: Thread) {
    th.Busy? && th.pc != Acquire && th.pc != Return
  }

  predicate Effective(th: Thread) {
    th.Busy? && (th.pc == Release || th.pc == Return)
  }

  /** An insert whose node is still its own. */
  predicate HoldsNode(th: Thread) {
    th.Busy? && th.op.Insert? && (th.pc == Acquire || th.pc == Link || th.pc == Publish)
  }

  function Nth(chain: seq<int>, i: int): int {
    if 0 <= i < |chain| then chain[i] else NIL
  }

  /** The nodes reached from a head are those of chain, in that order. */
  ghost predicate Linked(heap: seq<Node>, head: int, chain: seq<int>) {
    && head == Nth(chain, 0)
    && (forall i :: 0 <= i < |chain| ==> 0 <= chain[i] < |heap| && heap[chain[i]].next == Nth(chain, i + 1))
    && (forall i, j :: 0 <= i < j < |chain| ==> chain[i] != chain[j])
  }

  ghost predicate ChainsOk(s: System, chains: seq<seq<int>>) {
    && |chains| == |s.buckets| > 0
    && (forall b :: 0 <= b < |chains| ==> Linked(s.heap, s.buckets[b].head, chains[b]))
    && (forall b, i :: 0 <= b < |chains| && 0 <= i < |chains[b]| ==>
          Valid(s, chains[b][i]) && s.heap[chains[b][i]].key % |s.buckets| == b)
  }

  /** Mutual exclusion, and a set flag always has a holder. */
  ghost predicate LocksOk(s: System) {
    && |s.buckets| > 0
    && (forall t :: 0 <= t < |s.threads| && InSection(s.threads[t]) ==> s.buckets[BucketOf(s, s.threads[t].op)].flag)
    && (forall t, u :: 0 <= t < u < |s.threads| && InSection(s.threads[t]) && InSection(s.threads[u]) ==>
          BucketOf(s, s.threads[t].op) != BucketOf(s, s.threads[u].op))
    && (forall b :: 0 <= b < |s.buckets| && s.buckets[b].flag ==>
          exists t :: 0 <= t < |s.threads| && InSection(s.threads[t]) && BucketOf(s, s.threads[t].op) == b)
  }

  /** Where a thread stands in its bucket's list. */
  ghost predicate PlaceOk(s: System, chain: seq<int>, th: Thread)
    requires th.Busy? && |s.buckets| > 0
  {
    match th.pc
    case Acquire => th.op.Insert? ==> Valid(s, th.current) && th.current !in chain
    case Link => th.op.Insert? && Valid(s, th.current) && th.current !in chain
    case Publish =>
      th.op.Insert? && Valid(s, th.current) && th.current !in chain && s.heap[th.current].next == Nth(chain, 0)
    case Start => !th.op.Insert?
    case Scan => !th.op.Insert? && Before(s, chain, th)
    case Unlink => th.op.Delete? && Before(s, chain, th) && th.pos < |chain| && s.heap[th.current].key == th.op.key
    case Release => true
    case Return => true
  }

  /** current is at place pos of the list, previous just before it, and the key is not among the nodes passed. */
  ghost predicate Before(s: System, chain: seq<int>, th: Thread)
    requires th.Busy?
  {
    && th.pos <= |chain| && th.current == Nth(chain, th.pos) && th.previous == Nth(chain, th.pos - 1)
    && (forall i :: 0 <= i < |chain| ==> Valid(s, chain[i]))
    && (forall i :: 0 <= i < th.pos ==> s.heap[chain[i]].key != th.op.key)
  }

  ghost predicate ThreadOk(s: System, chains: seq<seq<int>>, th: Thread)
    requires |chains| == |s.buckets| > 0
  {
    th.Busy? ==>
      && PlaceOk(s, chains[BucketOf(s, th.op)], th)
      && (HoldsNode(th) ==> Valid(s, th.current) && s.heap[th.current].key == th.op.key
                            && s.heap[th.current].element == th.op.element)
      && th.id < s.issued && th.invoked < s.now
      && (if Effective(th) then
            && th.at < |s.log| && s.log[th.at].id == th.id && s.log[th.at].op == th.op
            && th.invoked < s.log[th.at].time < s.now
            && Pointer(s, th.current)
            && s.log[th.at].result == (if th.op.Lookup? then ElementAt(s, th.current) else NO_ELEMENT)
          else forall i :: 0 <= i < |s.log| ==> s.log[i].id != th.id)
  }

  ghost predicate ThreadsOk(s: System, chains: seq<seq<int>>)
    requires |chains| == |s.buckets| > 0
  {
    && (forall t :: 0 <= t < |s.threads| ==> ThreadOk(s, chains, s.threads[t]))
    && (forall t, u :: 0 <= t < u < |s.threads| && s.threads[t].Busy? && s.threads[u].Busy? ==>
          && s.threads[t].id != s.threads[u].id
          && (HoldsNode(s.threads[t]) && HoldsNode(s.threads[u]) ==> s.threads[t].current != s.threads[u].current))
  }

  /** What node p contributes under key k. */
  function Here(heap: seq<Node>, p: int, k: Key): seq<int> {
    if 0 <= p < |heap| && heap[p].key == k then [heap[p].element] else []
  }

  /** The elements under key k of the nodes in a list. */
  function Elements(heap: seq<Node>, chain: seq<int>, k: Key): seq<int> {
    if chain == [] then [] else Here(heap, chain[0], k) + Elements(heap, chain[1..], k)
  }

  ghost predicate ContentsOk(s: System, chains: seq<seq<int>>)
    requires |chains| == |s.buckets| > 0
  {
    forall k: Key :: Elements(s.heap, chains[k % |s.buckets|], k) == Stack(s.log, k)
  }

  ghost predicate LogOk(s: System) {
    && (forall i :: 0 <= i < |s.log| ==> s.log[i].id < s.issued && s.log[i].time < s.now)
    && (forall i :: 0 <= i < |s.log| ==> s.log[i].result == Answer(s.log[..i], s.log[i].op))
    && (forall i, j :: 0 <= i < j < |s.log| ==> s.log[i].id != s.log[j].id && s.log[i].time < s.log[j].time)
  }

  /** Each returned call has its entry in the log, with the result it returned, at a time between
      its invocation and its return. */
  ghost predicate CallOk(s: System, c: Call) {
    && c.at < |s.log| && c.returned < s.now
    && s.log[c.at] == Entry(c.id, c.op, c.result, s.log[c.at].time)
    && c.invoked < s.log[c.at].time < c.returned
  }

  ghost predicate CallsOk(s: System) {
    && (forall i :: 0 <= i < |s.calls| ==> CallOk(s, s.calls[i]))
    && (forall i, j :: 0 <= i < j < |s.calls| ==> s.calls[i].id != s.calls[j].id)
    && (forall i, t :: 0 <= i < |s.calls| && 0 <= t < |s.threads| && s.threads[t].Busy? ==>
          s.calls[i].id != s.threads[t].id)
    && (forall i :: 0 <= i < |s.calls| ==> s.calls[i].id < s.issued)
  }

  ghost predicate Inv(s: System, chains: seq<seq<int>>) {
    ChainsOk(s, chains) && LocksOk(s) && ThreadsOk(s, chains) && ContentsOk(s, chains) && LogOk(s) && CallsOk(s)
  }
}
