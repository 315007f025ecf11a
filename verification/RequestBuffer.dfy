/** The web server's request buffer: the slots, the counters beside them, and the critical sections
    of the producer and of the workers. */
module RequestBuffer {
  const INT_MAX: int := 0x7fff_ffff
  const FREE: int := -1       // fd of an unused slot

  datatype Algorithm = FIFO | SFF | SFF_BS

  /** id counts arrivals; it is history, the server has no such field. */
  datatype Request = Request(fd: int, epoch: int, size: int, id: nat)

  /** Everything the mutex protects, with the fixed configuration. */
  datatype Buffer = Buffer(alg: Algorithm, epochSize: nat, slots: seq<Request>, count: int, index: int,
                           workerEpoch: int, workerCount: int, producerEpoch: int, producerCount: int)

  predicate Occupied(slots: seq<Request>, p: int) {
    0 <= p < |slots| && slots[p].fd != FREE
  }

  predicate Configured(b: Buffer) {
    1 <= |b.slots| <= INT_MAX && (b.alg == SFF_BS ==> 1 <= b.epochSize <= INT_MAX)
  }

  /** One place further around the ring. */
  function Next(p: int, size: nat): (r: int)
    requires 0 <= p < size
    ensures 0 <= r < size && (r == p + 1 || (p == size - 1 && r == 0))
  {
    (p + 1) % size
  }

  // ----- The producer's scan for a slot -----

  /** The value compared with in the scan; `stale` is the uninitialised local it is computed from. */
  function ScanLimit(i: int, stale: int): int {
    if i != 0 then stale - 1 else 0
  }

  /** Where the scan from i ends, looking at n slots at most: at the limit or at a free slot. */
  function Scan(slots: seq<Request>, i: int, limit: int, n: nat): (r: int)
    requires 0 <= i < |slots|
    ensures 0 <= r < |slots|
    decreases n
  {
    if n == 0 || i == limit || !Occupied(slots, i) then i else Scan(slots, Next(i, |slots|), limit, n - 1)
  }

  function ChosenSlot(b: Buffer, i: int, stale: int): (r: int)
    requires 0 <= i < |b.slots|
    ensures 0 <= r < |b.slots|
  {
    Scan(b.slots, i, ScanLimit(i, stale), |b.slots|)
  }

  // ----- The workers' choice -----

  predicate Eligible(slots: seq<Request>, epoch: int, p: int) {
    Occupied(slots, p) && (epoch == -1 || slots[p].epoch == epoch)
  }

  /** p holds a smallest eligible request of the first n slots, the first one of its size. */
  predicate IsMin(slots: seq<Request>, epoch: int, p: int, n: nat)
    requires n <= |slots|
  {
    && Eligible(slots, epoch, p) && p < n
    && (forall q :: 0 <= q < n && Eligible(slots, epoch, q) ==> slots[p].size <= slots[q].size)
    && (forall q :: 0 <= q < p && Eligible(slots, epoch, q) ==> slots[p].size < slots[q].size)
  }

  /** What get_min_request finds among the first n slots. */
  function MinIndex(slots: seq<Request>, epoch: int, n: nat): (r: int)
    requires n <= |slots|
    ensures -1 <= r < n
    ensures if r == -1 then forall q :: 0 <= q < n ==> !Eligible(slots, epoch, q) else IsMin(slots, epoch, r, n)
  {
    if n == 0 then -1
    else
      var m := MinIndex(slots, epoch, n - 1);
      if !Eligible(slots, epoch, n - 1) then m
      else if m == -1 then n - 1
      else if slots[n - 1].size < slots[m].size then n - 1
      else m
  }

  /** The FIFO worker's scan starts at the serve index and gives up one place before it. */
  function ServeScan(slots: seq<Request>, p: int, limit: int, n: nat): (r: int)
    requires 0 <= p < |slots|
    ensures 0 <= r < |slots|
    decreases n
  {
    if n == 0 || p == limit || Occupied(slots, p) then p else ServeScan(slots, Next(p, |slots|), limit, n - 1)
  }

  /** The slot a worker serves from, -1 when get_min_request finds none. */
  function ServedSlot(b: Buffer): (r: int)
    requires 0 <= b.index < |b.slots|
    ensures -1 <= r < |b.slots|
  {
    match b.alg
    case FIFO => ServeScan(b.slots, b.index, if b.index != 0 then b.index - 1 else 0, |b.slots|)
    case SFF => MinIndex(b.slots, -1, |b.slots|)
    case SFF_BS => MinIndex(b.slots, b.workerEpoch, |b.slots|)
  }

  // ----- The critical sections -----

  // Outside SFF_BS the code leaves a request's epoch unset and never reads it.

  function AfterInsert(b: Buffer, i: int, fd: int, size: int, id: nat): Buffer
    requires 0 <= i < |b.slots| && (b.alg == SFF_BS ==> b.epochSize > 0)
  {
    var producerCount := if b.alg == SFF_BS then (b.producerCount + 1) % b.epochSize else b.producerCount;
    b.(slots := b.slots[i := Request(fd, b.producerEpoch, size, id)], count := b.count + 1,
       producerCount := producerCount,
       producerEpoch := if producerCount == 0 then (b.producerEpoch + 1) % INT_MAX else b.producerEpoch)
  }

  function AfterDispatch(b: Buffer): Buffer
    requires 0 <= b.index < |b.slots| && ServedSlot(b) != -1 && (b.alg == SFF_BS ==> b.epochSize > 0)
  {
    var p := ServedSlot(b);
    var workerCount := if b.alg == SFF_BS then (b.workerCount + 1) % b.epochSize else b.workerCount;
    b.(slots := b.slots[p := b.slots[p].(fd := FREE)], count := b.count - 1, index := Next(p, |b.slots|),
       workerCount := workerCount,
       workerEpoch := if b.alg == SFF_BS && workerCount == 0 then (b.workerEpoch + 1) % INT_MAX else b.workerEpoch)
  }

  // ----- When the scan finds a free slot -----

  /** The distance from i to q going up around the ring. */
  function Ahead(i: int, q: int, size: nat): int {
    if i <= q then q - i else q - i + size
  }

  /** Slot q is one the scan from i may come to: it does not lie beyond the limit. */
  predicate Reached(i: int, limit: int, q: int, size: nat) {
    0 <= q < size && (0 <= limit < size ==> Ahead(i, q, size) <= Ahead(i, limit, size))
  }

  lemma {:induction false} ScanEnds(slots: seq<Request>, i: int, limit: int, n: nat, q: int)
    requires 0 <= i < |slots| && 0 <= q < |slots| && !Occupied(slots, q)
    requires Reached(i, limit, q, |slots|) && Ahead(i, q, |slots|) < n
    ensures !Occupied(slots, Scan(slots, i, limit, n))
    decreases n
  {
    if i != q && i != limit && Occupied(slots, i) {
      ScanEnds(slots, Next(i, |slots|), limit, n - 1, q);
    }
  }

  lemma {:induction false} ScanWithin(slots: seq<Request>, i: int, limit: int, n: nat)
    requires 0 <= i < |slots|
    ensures Reached(i, limit, Scan(slots, i, limit, n), |slots|)
    decreases n
  {
    if n > 0 && i != limit && Occupied(slots, i) {
      ScanWithin(slots, Next(i, |slots|), limit, n - 1);
    }
  }

  /** The scan as written ends on a free slot if and only if there is one it may come to: between i
      and the limit, where the limit is 0 when i is 0 and otherwise depends on an uninitialised
      local. */
  lemma ScanGoodIff(b: Buffer, i: int, stale: int)
    requires 0 <= i < |b.slots|
    ensures !Occupied(b.slots, ChosenSlot(b, i, stale))
       <==> exists q :: Reached(i, ScanLimit(i, stale), q, |b.slots|) && !Occupied(b.slots, q)
  {
    ScanWithin(b.slots, i, ScanLimit(i, stale), |b.slots|);
    if q :| Reached(i, ScanLimit(i, stale), q, |b.slots|) && !Occupied(b.slots, q) {
      ScanEnds(b.slots, i, ScanLimit(i, stale), |b.slots|, q);
    }
  }

  // ----- The code -----

  method GetMinRequest(req: array<Request>, epoch: int) returns (minIndex: int)
    ensures minIndex == MinIndex(req[..], epoch, req.Length)
  {
    minIndex := -1;
    var i := 0;
    while i < req.Length
      invariant 0 <= i <= req.Length
      invariant minIndex == MinIndex(req[..], epoch, i)
    {
      if req[i].fd != FREE && (epoch == -1 || req[i].epoch == epoch) {
        if minIndex == -1 {
          minIndex := i;
        } else if req[i].size < req[minIndex].size {
          minIndex := i;
        }
      }
      i := i + 1;
    }
  }

  class Server {
    const alg: Algorithm
    const epochSize: nat
    const req: array<Request>
    var reqCount: int
    var reqIndex: int
    var workerEpoch: int
    var workerEpochCount: int
    var epoch: int
    var epochReqCount: int

    function State(): Buffer
      reads this, req
    {
      Buffer(alg, epochSize, req[..], reqCount, reqIndex, workerEpoch, workerEpochCount, epoch, epochReqCount)
    }

    constructor (alg: Algorithm, bufferSize: nat, epochSize: nat)
      requires 1 <= bufferSize <= INT_MAX && (alg == SFF_BS ==> 1 <= epochSize <= INT_MAX)
      ensures Configured(State()) && fresh(req) && req.Length == bufferSize
      ensures State() == Buffer(alg, epochSize, req[..], 0, 0, 0, 0, 0, 0)
      ensures forall p :: !Occupied(req[..], p)
    {
      this.alg, this.epochSize := alg, epochSize;
      req := new Request[bufferSize](_ => Request(FREE, 0, 0, 0));
      reqCount, reqIndex, workerEpoch, workerEpochCount, epoch, epochReqCount := 0, 0, 0, 0, 0, 0;
    }

    /** The producer's scan, under the mutex; it would never end if all slots were occupied. */
    method ChooseSlot(start: int, stale: int) returns (i: int)
      requires 0 <= start < req.Length && exists q :: 0 <= q < req.Length && !Occupied(req[..], q)
      ensures i == ChosenSlot(State(), start, stale)
    {
      i := start;
      var oldI := if i != 0 then stale - 1 else 0;
      ghost var n: nat := req.Length;
      ghost var q :| 0 <= q < req.Length && !Occupied(req[..], q);
      while i != oldI && req[i].fd != FREE
        invariant 0 <= i < req.Length && Ahead(i, q, req.Length) < n
        invariant Scan(req[..], i, oldI, n) == ChosenSlot(State(), start, stale)
        decreases n
      {
        i := (i + 1) % req.Length;
        assert i == Next(if i == 0 then req.Length - 1 else i - 1, req.Length);
        n := n - 1;
      }
    }

    /** The producer's second critical section. */
    method Insert(i: int, fd: int, size: int, id: nat)
      requires 0 <= i < req.Length && (alg == SFF_BS ==> epochSize > 0)
      modifies this, req
      ensures State() == AfterInsert(old(State()), i, fd, size, id)
      ensures req[..] == old(req[..])[i := Request(fd, old(epoch), size, id)]
    {
      var newEpoch := epoch;
      if alg == SFF_BS {
        epochReqCount := (epochReqCount + 1) % epochSize;
      }
      if epochReqCount == 0 {
        epoch := (epoch + 1) % INT_MAX;
      }
      req[i] := Request(fd, newEpoch, size, id);
      reqCount := reqCount + 1;
    }

    /** How a worker picks the slot to serve. */
    method PickSlot() returns (index: int)
      requires Configured(State()) && 0 <= reqIndex < req.Length
      ensures index == ServedSlot(State())
    {
      index := reqIndex;
      if alg == FIFO {
        var oldIndex := if index != 0 then index - 1 else 0;
        ghost var n: nat := req.Length;
        while index != oldIndex && req[index].fd == FREE
          invariant 0 <= index < req.Length && Ahead(index, oldIndex, req.Length) < n
          invariant ServeScan(req[..], index, oldIndex, n) == ServedSlot(State())
          decreases n
        {
          index := (index + 1) % req.Length;
          assert index == Next(if index == 0 then req.Length - 1 else index - 1, req.Length);
          n := n - 1;
        }
      } else if alg == SFF {
        index := GetMinRequest(req, -1);
      } else {
        index := GetMinRequest(req, workerEpoch);
      }
    }

    /** The worker's critical section, once there is a request. */
    method Dispatch() returns (r: Request)
      requires Configured(State()) && 0 <= reqIndex < req.Length && ServedSlot(State()) != -1
      modifies this, req
      ensures State() == AfterDispatch(old(State())) && r == old(req[ServedSlot(State())])
    {
      hide ServedSlot;
      var index := PickSlot();
      if alg == SFF_BS {
        workerEpochCount := (workerEpochCount + 1) % epochSize;
        if workerEpochCount == 0 {
          workerEpoch := (workerEpoch + 1) % INT_MAX;
        }
      }
      r := req[index];
      req[index] := r.(fd := FREE);
      reqCount := reqCount - 1;
      reqIndex := (index + 1) % req.Length;
    }
  }
}
