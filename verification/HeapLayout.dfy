/** The chunk layout of the allocator's pool, as a value: what a pool looks like when its header
    words are read off, the pure effect of allocating and freeing on that value, and the
    properties of every layout a run can reach. */
module HeapLayout {
  const HEADER: nat := 12
  const NULL: int := -2   // any value that is no address and differs from TAKEN
  const TAKEN: int := -1

  /** One header together with the bytes it governs. */
  datatype Chunk = Chunk(addr: nat, size: nat, free: bool) {
    function Payload(): nat { addr + HEADER }
    function End(): nat { addr + HEADER + size }
  }

  type Layout = seq<Chunk>

  /** The chunks cover bytes 0..total without gap or overlap, in address order. */
  ghost predicate Tiles(cs: Layout, total: nat) {
    && cs != []
    && cs[0].addr == 0
    && cs[|cs| - 1].End() == total
    && forall i, j :: 0 <= i && j == i + 1 && j < |cs| ==> cs[j].addr == cs[i].End()
  }

  /** Tiled, every payload a multiple of four bytes, never two free neighbours, and a free chunk
      at the very end. */
  ghost predicate WellFormed(cs: Layout, total: nat) {
    && Tiles(cs, total)
    && (forall i :: 0 <= i < |cs| ==> cs[i].size % 4 == 0)
    && (forall i, j :: 0 <= i && j == i + 1 && j < |cs| ==> !cs[i].free || !cs[j].free)
    && cs[|cs| - 1].free
  }

  function InitialLayout(size: nat): Layout {
    [Chunk(0, size, true)]
  }

  /** The blocks the client holds. */
  ghost function Live(cs: Layout): set<Chunk> {
    set c | c in cs && !c.free
  }

  lemma {:induction false} Ordered(cs: Layout, total: nat, i: nat, j: nat)
    requires Tiles(cs, total) && i < j < |cs|
    ensures cs[i].End() <= cs[j].addr
    decreases j - i
  {
    if i + 1 < j {
      Ordered(cs, total, i, j - 1);
      assert cs[j].addr == cs[j - 1].End();
    } else {
      assert cs[j].addr == cs[i].End();
    }
  }

  lemma Bounded(cs: Layout, total: nat, i: nat)
    requires Tiles(cs, total) && i < |cs|
    ensures cs[i].End() <= total
  {
    if i < |cs| - 1 {
      Ordered(cs, total, i, |cs| - 1);
    }
  }

  lemma AddressesDiffer(cs: Layout, total: nat, i: nat, j: nat)
    requires Tiles(cs, total) && i < |cs| && j < |cs| && cs[i].addr == cs[j].addr
    ensures i == j
  {
    if i < j {
      Ordered(cs, total, i, j);
    } else if j < i {
      Ordered(cs, total, j, i);
    }
  }

  lemma ApartFrom(cs: Layout, total: nat, i: nat, j: nat)
    requires Tiles(cs, total) && i < |cs| && j < |cs|
    ensures i == j || cs[i].End() <= cs[j].addr || cs[j].End() <= cs[i].addr
  {
    if i < j {
      Ordered(cs, total, i, j);
    } else if j < i {
      Ordered(cs, total, j, i);
    }
  }

  // ----- The free list -----

  /** The address of the lowest free chunk, which is what a "next free" pointer holds. */
  function FirstFree(cs: Layout): int {
    if cs == [] then NULL
    else if cs[0].free then cs[0].addr
    else FirstFree(cs[1..])
  }

  predicate AnyFree(cs: Layout) {
    exists i :: 0 <= i < |cs| && cs[i].free
  }

  lemma {:induction false} FirstFreeOfAppend(a: Layout, b: Layout)
    ensures FirstFree(a) == NULL <==> !AnyFree(a)
    ensures FirstFree(a + b) == if AnyFree(a) then FirstFree(a) else FirstFree(b)
    decreases |a|
  {
    if a == [] {
      assert a + b == b;
    } else if a[0].free {
      assert (a + b)[0] == a[0];
    } else {
      FirstFreeOfAppend(a[1..], b);
      assert (a + b)[1..] == a[1..] + b;
      assert AnyFree(a) <==> AnyFree(a[1..]) by {
        if AnyFree(a) {
          var i :| 0 <= i < |a| && a[i].free;
          assert a[1..][i - 1].free;
        }
        if AnyFree(a[1..]) {
          var i :| 0 <= i < |a[1..]| && a[1..][i].free;
          assert a[i + 1].free;
        }
      }
    }
  }

  lemma {:induction false} FirstFreeFound(cs: Layout, i: nat)
    requires i < |cs| && cs[i].free
    requires forall j :: 0 <= j < i ==> !cs[j].free
    ensures FirstFree(cs) == cs[i].addr
  {
    if i > 0 {
      FirstFreeFound(cs[1..], i - 1);
    }
  }

  /** No free chunk has a lower address than the head of the list. */
  lemma {:induction false} FirstFreeLowest(cs: Layout, total: nat, p: nat)
    requires Tiles(cs, total) && p < |cs| && cs[p].free
    ensures 0 <= FirstFree(cs) <= cs[p].addr
  {
    if j :| 0 <= j < p && cs[j].free {
      FirstFreeLowest(cs, total, j);
      Ordered(cs, total, j, p);
    } else {
      FirstFreeFound(cs, p);
    }
  }

  /** The word stored in the `next` field of chunk i. */
  function NextWord(cs: Layout, i: nat): int
    requires i < |cs|
  {
    if cs[i].free then FirstFree(cs[i + 1..]) else TAKEN
  }

  // ----- Allocation -----

  predicate Fits(c: Chunk, n: nat) {
    c.free && c.size >= n + HEADER
  }

  /** Index of the lowest chunk that can be split for n bytes, |cs| when there is none. */
  function FirstFit(cs: Layout, n: nat): (k: nat)
    ensures k <= |cs|
    ensures k < |cs| ==> Fits(cs[k], n)
    ensures forall i :: 0 <= i < k ==> !Fits(cs[i], n)
  {
    if cs == [] then 0
    else if Fits(cs[0], n) then 0
    else 1 + FirstFit(cs[1..], n)
  }

  lemma FirstFitUnique(cs: Layout, n: nat, k: nat)
    requires k <= |cs| && (k < |cs| ==> Fits(cs[k], n))
    requires forall i :: 0 <= i < k ==> !Fits(cs[i], n)
    ensures FirstFit(cs, n) == k
  {
  }

  function Split(cs: Layout, k: nat, n: nat): Layout
    requires k < |cs| && cs[k].size >= n + HEADER
  {
    cs[..k]
    + [Chunk(cs[k].addr, n, false), Chunk(cs[k].addr + HEADER + n, cs[k].size - n - HEADER, true)]
    + cs[k + 1..]
  }

  function AfterAlloc(cs: Layout, n: nat): Layout {
    var k := FirstFit(cs, n);
    if k == |cs| then cs else Split(cs, k, n)
  }

  lemma SplitIndices(cs: Layout, k: nat, n: nat)
    requires k < |cs| && cs[k].size >= n + HEADER
    ensures var r := Split(cs, k, n);
      && |r| == |cs| + 1
      && r[k] == Chunk(cs[k].addr, n, false)
      && r[k + 1] == Chunk(cs[k].addr + HEADER + n, cs[k].size - n - HEADER, true)
      && (forall i :: 0 <= i < k ==> r[i] == cs[i])
      && (forall i :: k + 2 <= i < |r| ==> r[i] == cs[i - 1])
  {
  }

  lemma SplitTiles(cs: Layout, total: nat, k: nat, n: nat)
    requires Tiles(cs, total) && k < |cs| && cs[k].size >= n + HEADER
    ensures Tiles(Split(cs, k, n), total)
  {
    SplitIndices(cs, k, n);
    hide Split;
  }

  lemma AllocKeepsWellFormed(cs: Layout, total: nat, n: nat)
    requires WellFormed(cs, total) && n % 4 == 0
    ensures WellFormed(AfterAlloc(cs, n), total)
  {
    hide Tiles, Split;
    var k := FirstFit(cs, n);
    if k < |cs| {
      SplitTiles(cs, total, k, n);
      SplitIndices(cs, k, n);
    }
  }

  lemma LiveOfAppend(a: Layout, b: Layout)
    ensures Live(a + b) == Live(a) + Live(b)
  {
  }

  lemma AllocAddsBlock(cs: Layout, total: nat, n: nat)
    requires WellFormed(cs, total) && FirstFit(cs, n) < |cs|
    ensures var c := Chunk(cs[FirstFit(cs, n)].addr, n, false);
            c !in Live(cs) && Live(AfterAlloc(cs, n)) == Live(cs) + {c}
  {
    assert Tiles(cs, total);
    hide WellFormed, Tiles, FirstFit;
    var k := FirstFit(cs, n);
    var c := Chunk(cs[k].addr, n, false);
    var rest := Chunk(cs[k].addr + HEADER + n, cs[k].size - n - HEADER, true);
    if c in cs {
      var i :| 0 <= i < |cs| && cs[i] == c;
      AddressesDiffer(cs, total, i, k);
    }
    assert cs == cs[..k] + [cs[k]] + cs[k + 1..];
    LiveOfAppend(cs[..k] + [cs[k]], cs[k + 1..]);
    LiveOfAppend(cs[..k], [cs[k]]);
    LiveOfAppend(cs[..k] + [c, rest], cs[k + 1..]);
    LiveOfAppend(cs[..k], [c, rest]);
    assert Live([c, rest]) == {c} by {
      assert [c, rest][0] == c;
    }
  }

  // ----- Release -----

  /** Chunk i absorbs chunk i + 1. */
  function Merge(cs: Layout, i: nat): Layout
    requires i + 1 < |cs|
  {
    cs[..i] + [Chunk(cs[i].addr, cs[i].size + HEADER + cs[i + 1].size, true)] + cs[i + 2..]
  }

  function Linked(cs: Layout, t: nat): Layout
    requires t < |cs|
  {
    cs[t := cs[t].(free := true)]
  }

  function AfterRelease(cs: Layout, t: nat): Layout
    requires t < |cs|
  {
    var linked := Linked(cs, t);
    var right := if t + 1 < |cs| && cs[t + 1].free then Merge(linked, t) else linked;
    if t > 0 && cs[t - 1].free then Merge(right, t - 1) else right
  }

  /** Index of the live block whose payload starts at ptr, |cs| when there is none. */
  function BlockAt(cs: Layout, ptr: int): (t: nat)
    ensures t <= |cs|
    ensures t < |cs| ==> !cs[t].free && cs[t].Payload() == ptr
    ensures t == |cs| ==> forall i :: 0 <= i < |cs| && !cs[i].free ==> cs[i].Payload() != ptr
  {
    if cs == [] then 0
    else if !cs[0].free && cs[0].Payload() == ptr then 0
    else 1 + BlockAt(cs[1..], ptr)
  }

  function AfterFree(cs: Layout, ptr: int): Layout {
    var t := BlockAt(cs, ptr);
    if t == |cs| then cs else AfterRelease(cs, t)
  }

  /** Well formed, except that chunks i and i + 1 may both be free when i is g or h. */
  ghost predicate WellFormedBut(cs: Layout, total: nat, g: int, h: int) {
    && Tiles(cs, total)
    && (forall i :: 0 <= i < |cs| ==> cs[i].size % 4 == 0)
    && (forall i, j :: 0 <= i && j == i + 1 && j < |cs| && i != g && i != h ==> !cs[i].free || !cs[j].free)
    && cs[|cs| - 1].free
  }

  lemma MergeIndices(cs: Layout, i: nat)
    requires i + 1 < |cs|
    ensures var r := Merge(cs, i);
      && |r| == |cs| - 1
      && r[i] == Chunk(cs[i].addr, cs[i].size + HEADER + cs[i + 1].size, true)
      && (forall j :: 0 <= j < i ==> r[j] == cs[j])
      && (forall j :: i < j < |r| ==> r[j] == cs[j + 1])
  {
  }

  lemma MergeTiles(cs: Layout, total: nat, i: nat)
    requires Tiles(cs, total) && i + 1 < |cs|
    ensures Tiles(Merge(cs, i), total)
  {
    MergeIndices(cs, i);
    hide Merge;
    assert cs[i + 1].addr == cs[i].End();
  }

  lemma MergeClosesGap(cs: Layout, total: nat, g: int, i: nat)
    requires WellFormedBut(cs, total, g, i) && i + 1 < |cs| && cs[i].free && cs[i + 1].free && g <= i
    ensures var h := if g < i then g else -1; WellFormedBut(Merge(cs, i), total, h, h)
  {
    hide Tiles, Merge;
    MergeTiles(cs, total, i);
    MergeIndices(cs, i);
    var r := Merge(cs, i);
    forall p, q | 0 <= p && q == p + 1 && q < |r| && (g == i || p != g) ensures !r[p].free || !r[q].free {
      if p < i {
        assert !cs[p].free || !cs[q].free;
      } else {
        assert !cs[p + 1].free || !cs[q + 1].free;
      }
    }
  }

  lemma LinkedTiles(cs: Layout, total: nat, t: nat)
    requires Tiles(cs, total) && t < |cs|
    ensures Tiles(Linked(cs, t), total)
  {
  }

  lemma LinkedGaps(cs: Layout, total: nat, t: nat)
    requires WellFormed(cs, total) && t < |cs| && !cs[t].free
    ensures t + 1 < |cs| && WellFormedBut(Linked(cs, t), total, t - 1, t)
    ensures var r := Linked(cs, t);
      |r| == |cs| && r[t].free && forall i :: 0 <= i < |cs| && i != t ==> r[i] == cs[i]
  {
    hide Tiles;
    LinkedTiles(cs, total, t);
  }

  lemma NoGap(cs: Layout, total: nat, g: int, i: int)
    requires WellFormedBut(cs, total, g, i) && (0 <= i < |cs| - 1 ==> !cs[i].free || !cs[i + 1].free) && g <= i
    ensures var h := if g < i then g else -1; WellFormedBut(cs, total, h, h)
  {
    hide Tiles;
  }

  lemma GaplessIsWellFormed(cs: Layout, total: nat)
    requires WellFormedBut(cs, total, -1, -1)
    ensures WellFormed(cs, total)
  {
    hide Tiles;
  }

  lemma ReleaseKeepsWellFormed(cs: Layout, total: nat, t: nat)
    requires WellFormed(cs, total) && t < |cs| && !cs[t].free
    ensures WellFormed(AfterRelease(cs, t), total)
  {
    LinkedGaps(cs, total, t);
    hide WellFormed, WellFormedBut, Linked, Merge;
    var linked := Linked(cs, t);
    var right := if cs[t + 1].free then Merge(linked, t) else linked;
    if cs[t + 1].free {
      MergeClosesGap(linked, total, t - 1, t);
      MergeIndices(linked, t);
    } else {
      NoGap(linked, total, t - 1, t);
    }
    if t > 0 && cs[t - 1].free {
      MergeClosesGap(right, total, t - 1, t - 1);
    } else {
      NoGap(right, total, t - 1, t - 1);
    }
    GaplessIsWellFormed(AfterRelease(cs, t), total);
  }

  lemma MergeLive(cs: Layout, i: nat)
    requires i + 1 < |cs| && cs[i].free && cs[i + 1].free
    ensures Live(Merge(cs, i)) == Live(cs)
  {
    var one := [Chunk(cs[i].addr, cs[i].size + HEADER + cs[i + 1].size, true)];
    var two := [cs[i], cs[i + 1]];
    assert cs == cs[..i] + two + cs[i + 2..];
    LiveOfAppend(cs[..i] + two, cs[i + 2..]);
    LiveOfAppend(cs[..i], two);
    LiveOfAppend(cs[..i] + one, cs[i + 2..]);
    LiveOfAppend(cs[..i], one);
  }

  lemma UnmarkLive(cs: Layout, total: nat, t: nat)
    requires Tiles(cs, total) && t < |cs|
    ensures Live(Linked(cs, t)) == Live(cs) - {cs[t]}
  {
    hide Tiles;
    var was, now := [cs[t]], [cs[t].(free := true)];
    assert cs == cs[..t] + was + cs[t + 1..];
    assert Linked(cs, t) == cs[..t] + now + cs[t + 1..];
    LiveOfAppend(cs[..t] + was, cs[t + 1..]);
    LiveOfAppend(cs[..t], was);
    LiveOfAppend(cs[..t] + now, cs[t + 1..]);
    LiveOfAppend(cs[..t], now);
    forall i | 0 <= i < |cs| && i != t ensures cs[i] != cs[t] {
      ApartFrom(cs, total, i, t);
    }
  }

  lemma ReleaseRemovesBlock(cs: Layout, total: nat, t: nat)
    requires WellFormed(cs, total) && t < |cs| && !cs[t].free
    ensures Live(AfterRelease(cs, t)) == Live(cs) - {cs[t]}
  {
    var linked := Linked(cs, t);
    UnmarkLive(cs, total, t);
    var right := if cs[t + 1].free then Merge(linked, t) else linked;
    if cs[t + 1].free {
      MergeLive(linked, t);
    }
    if t > 0 && cs[t - 1].free {
      assert right[t - 1] == cs[t - 1] && right[t].free;
      MergeLive(right, t - 1);
    }
  }

  lemma FreeEffect(cs: Layout, total: nat, ptr: int)
    requires WellFormed(cs, total)
    ensures WellFormed(AfterFree(cs, ptr), total)
    ensures Live(AfterFree(cs, ptr)) == set c | c in Live(cs) && c.Payload() != ptr
  {
    var t := BlockAt(cs, ptr);
    if t < |cs| {
      ReleaseKeepsWellFormed(cs, total, t);
      ReleaseRemovesBlock(cs, total, t);
      forall c | c in Live(cs) && c.Payload() == ptr ensures c == cs[t] {
        var j :| 0 <= j < |cs| && cs[j] == c;
        AddressesDiffer(cs, total, j, t);
      }
    }
  }

  // ----- The live blocks determine the layout -----

  lemma LiveAt(a: Layout, b: Layout, total: nat, i: nat)
    requires WellFormed(a, total) && WellFormed(b, total) && Live(a) == Live(b)
    requires i < |a| && i < |b| && a[i].addr == b[i].addr && !a[i].free
    ensures b[i] == a[i]
  {
    assert a[i] in Live(b);
    var j :| 0 <= j < |b| && b[j] == a[i];
    AddressesDiffer(b, total, i, j);
  }

  lemma FreeAt(a: Layout, b: Layout, total: nat, i: nat)
    requires WellFormed(a, total) && WellFormed(b, total) && Live(a) == Live(b)
    requires i < |a| && i < |b| && a[i].addr == b[i].addr && a[i].free && b[i].free
    ensures a[i].size >= b[i].size
  {
    if a[i].size < b[i].size {
      Bounded(b, total, i);
      assert i + 1 < |a|;
      var c := a[i + 1];
      assert c.addr == a[i].End() && !c.free;
      assert c in Live(b);
      var j :| 0 <= j < |b| && b[j] == c;
      if j < i {
        Ordered(b, total, j, i);
      } else if j > i {
        Ordered(b, total, i, j);
      }
    }
  }

  lemma {:induction false} SamePrefix(a: Layout, b: Layout, total: nat, i: nat)
    requires WellFormed(a, total) && WellFormed(b, total) && Live(a) == Live(b)
    requires i <= |a|
    ensures i <= |b| && a[..i] == b[..i]
  {
    if i > 0 {
      var k := i - 1;
      SamePrefix(a, b, total, k);
      if k == |b| {
        assert a[k - 1] == b[k - 1];
        assert a[k].addr == a[k - 1].End();
        Bounded(a, total, k);
        assert false;
      }
      assert a[k].addr == b[k].addr by {
        if k > 0 {
          assert a[k - 1] == a[..k][k - 1] == b[..k][k - 1];
        }
      }
      if !a[k].free {
        LiveAt(a, b, total, k);
      } else if !b[k].free {
        LiveAt(b, a, total, k);
      } else {
        FreeAt(a, b, total, k);
        FreeAt(b, a, total, k);
      }
      assert a[..i] == a[..k] + [a[k]];
      assert b[..i] == b[..k] + [b[k]];
    }
  }

  /** Coalescing is complete: two layouts of one pool with the same live blocks are the same
      layout, so the free list carries no trace of the history that led to it. */
  lemma LiveSetDeterminesLayout(a: Layout, b: Layout, total: nat)
    requires WellFormed(a, total) && WellFormed(b, total) && Live(a) == Live(b)
    ensures a == b
  {
    SamePrefix(a, b, total, |a|);
    SamePrefix(b, a, total, |b|);
  }

  /** Freeing a block straight after its allocation gives back exactly the layout before it. */
  lemma FreeUndoesAlloc(cs: Layout, total: nat, n: nat)
    requires WellFormed(cs, total) && n % 4 == 0 && FirstFit(cs, n) < |cs|
    ensures AfterFree(AfterAlloc(cs, n), cs[FirstFit(cs, n)].Payload()) == cs
  {
    assert Tiles(cs, total);
    hide WellFormed, Tiles, Split, AfterFree;
    var k := FirstFit(cs, n);
    var r := AfterAlloc(cs, n);
    var ptr := cs[k].Payload();
    AllocKeepsWellFormed(cs, total, n);
    AllocAddsBlock(cs, total, n);
    FreeEffect(r, total, ptr);
    forall c | c in Live(cs) ensures c.Payload() != ptr {
      var i :| 0 <= i < |cs| && cs[i] == c;
      if c.Payload() == ptr {
        AddressesDiffer(cs, total, i, k);
      }
    }
    assert Live(AfterFree(r, ptr)) == Live(cs);
    LiveSetDeterminesLayout(AfterFree(r, ptr), cs, total);
  }

  // ----- Whole runs -----

  datatype Event = Alloc(size: nat) | Free(ptr: int)

  function RoundUp(n: nat): (r: nat)
    ensures r % 4 == 0 && n <= r < n + 4
  {
    if n % 4 != 0 then n + (4 - n % 4) else n
  }

  function Apply(cs: Layout, e: Event): Layout {
    match e
    case Alloc(n) => if n < 1 then cs else AfterAlloc(cs, RoundUp(n))
    case Free(ptr) => AfterFree(cs, ptr)
  }

  function Run(cs: Layout, es: seq<Event>): Layout {
    if es == [] then cs else Apply(Run(cs, es[..|es| - 1]), es[|es| - 1])
  }

  lemma {:induction false} RunKeepsWellFormed(cs: Layout, total: nat, es: seq<Event>)
    requires WellFormed(cs, total)
    ensures WellFormed(Run(cs, es), total)
  {
    if es != [] {
      var before := Run(cs, es[..|es| - 1]);
      RunKeepsWellFormed(cs, total, es[..|es| - 1]);
      match es[|es| - 1] {
        case Alloc(n) => AllocKeepsWellFormed(before, total, RoundUp(n));
        case Free(ptr) => FreeEffect(before, total, ptr);
      }
    }
  }

  function Frees(ptrs: seq<int>): (es: seq<Event>)
    ensures |es| == |ptrs|
  {
    seq(|ptrs|, i requires 0 <= i < |ptrs| => Free(ptrs[i]))
  }

  lemma LastFree(cs: Layout, ptrs: seq<int>)
    requires ptrs != []
    ensures Run(cs, Frees(ptrs)) == AfterFree(Run(cs, Frees(ptrs[..|ptrs| - 1])), ptrs[|ptrs| - 1])
  {
    hide AfterFree;
    assert Frees(ptrs)[..|ptrs| - 1] == Frees(ptrs[..|ptrs| - 1]);
  }

  lemma {:induction false} FreesRemoveBlocks(cs: Layout, total: nat, ptrs: seq<int>)
    requires WellFormed(cs, total)
    ensures WellFormed(Run(cs, Frees(ptrs)), total)
    ensures Live(Run(cs, Frees(ptrs))) == set c | c in Live(cs) && c.Payload() !in ptrs
  {
    hide WellFormed, Live, Frees, AfterFree;
    if ptrs != [] {
      var front, last := ptrs[..|ptrs| - 1], ptrs[|ptrs| - 1];
      FreesRemoveBlocks(cs, total, front);
      FreeEffect(Run(cs, Frees(front)), total, last);
      LastFree(cs, ptrs);
      assert ptrs == front + [last];
    }
  }

  /** After any run, freeing blocks in any order, any of them repeatedly, as long as every live
      block is among them, leaves the one free chunk the pool started with. */
  lemma FreeingEverythingRestores(size: nat, es: seq<Event>, ptrs: seq<int>)
    requires size % 4 == 0
    requires forall c :: c in Live(Run(InitialLayout(size), es)) ==> c.Payload() in ptrs
    ensures Run(Run(InitialLayout(size), es), Frees(ptrs)) == InitialLayout(size)
  {
    var cs := Run(InitialLayout(size), es);
    RunKeepsWellFormed(InitialLayout(size), HEADER + size, es);
    FreesRemoveBlocks(cs, HEADER + size, ptrs);
    var r := Run(cs, Frees(ptrs));
    assert Live(r) == {} == Live(InitialLayout(size));
    LiveSetDeterminesLayout(r, InitialLayout(size), HEADER + size);
  }

  /** Two runs that leave the same blocks live leave the same layout and the same free list. */
  lemma HistoryForgotten(size: nat, es: seq<Event>, fs: seq<Event>)
    requires size % 4 == 0
    requires Live(Run(InitialLayout(size), es)) == Live(Run(InitialLayout(size), fs))
    ensures Run(InitialLayout(size), es) == Run(InitialLayout(size), fs)
  {
    RunKeepsWellFormed(InitialLayout(size), HEADER + size, es);
    RunKeepsWellFormed(InitialLayout(size), HEADER + size, fs);
    LiveSetDeterminesLayout(Run(InitialLayout(size), es), Run(InitialLayout(size), fs), HEADER + size);
  }

  /** Live blocks lie inside the pool, start on multiples of four, and do not overlap. */
  lemma LiveBlocksApart(cs: Layout, total: nat, c: Chunk, d: Chunk)
    requires WellFormed(cs, total) && c in Live(cs) && d in Live(cs)
    ensures HEADER <= c.Payload() <= c.End() <= total && c.Payload() % 4 == 0
    ensures c != d ==> c.End() <= d.addr || d.End() <= c.addr
  {
    var i :| 0 <= i < |cs| && cs[i] == c;
    var j :| 0 <= j < |cs| && cs[j] == d;
    Bounded(cs, total, i);
    Aligned(cs, total, i);
    if i < j {
      Ordered(cs, total, i, j);
    } else if j < i {
      Ordered(cs, total, j, i);
    }
  }

  lemma {:induction false} Aligned(cs: Layout, total: nat, i: nat)
    requires WellFormed(cs, total) && i < |cs|
    ensures cs[i].addr % 4 == 0
  {
    if i > 0 {
      Aligned(cs, total, i - 1);
      assert cs[i].addr == cs[i - 1].End();
    }
  }
}
