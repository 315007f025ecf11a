/** The allocator over its pool: header words read and written inside one byte-addressed array.
    Address 0 is the start of the pool; a header field occupies the cell at its first byte. */
module Heap {
  import opened Basics
  import opened HeapLayout

  const INT_MAX: int := 0x7fff_ffff
  const E_NO_SPACE: int := 1
  const E_BAD_ARGS: int := 4
  const E_BAD_POINTER: int := 5

  const NEXT: nat := 4    // offset of the `next` field in a header

  /** The memory m with list head `head` is an in-band encoding of the layout cs. */
  ghost predicate Encodes(m: seq<int>, head: int, cs: Layout) {
    && Tiles(cs, |m|)
    && head == FirstFree(cs)
    && forall i :: 0 <= i < |cs| ==> HeaderIs(m, cs[i].addr, cs[i].size, NextWord(cs, i))
  }

  ghost predicate HeaderIs(m: seq<int>, a: nat, size: int, next: int) {
    a + HEADER <= |m| && m[a] == size && m[a + NEXT] == next
  }

  ghost predicate PayloadsKept(m: seq<int>, m': seq<int>, blocks: set<Chunk>) {
    |m| == |m'| &&
    forall c, x :: c in blocks && c.Payload() <= x < c.End() && x < |m| ==> m'[x] == m[x]
  }

  // ----- Each group of writes, on the memory as a value -----

  /** p is the nearest free chunk below k, -1 when there is none. */
  ghost predicate LastFreeBelow(cs: Layout, k: nat, p: int) {
    && k <= |cs| && -1 <= p < k
    && (p >= 0 ==> cs[p].free)
    && forall i :: p < i < k ==> !cs[i].free
  }

  function AddrOrNull(cs: Layout, p: int): int
    requires p < |cs|
  {
    if p < 0 then NULL else cs[p].addr
  }

  /** Replacing everything from some chunk on changes one link below it: that of the nearest free
      chunk, or the list head when there is none. */
  lemma LinkBelow(a: Layout, s: Layout, s': Layout, p: int, i: nat)
    requires LastFreeBelow(a, |a|, p) && i < |a|
    ensures NextWord(a + s', i) == if i == p then FirstFree(s') else NextWord(a + s, i)
    ensures p >= 0 ==> NextWord(a + s, p) == FirstFree(s)
  {
    NextWordBelow(a, s, i);
    NextWordBelow(a, s', i);
    if i < p {
      assert a[i + 1..][p - i - 1].free;
    }
    if p >= 0 {
      NextWordBelow(a, s, p);
    }
  }

  lemma NextWordBelow(a: Layout, s: Layout, i: nat)
    requires i < |a|
    ensures NextWord(a + s, i)
         == if a[i].free && !AnyFree(a[i + 1..]) then FirstFree(s) else NextWord(a, i)
  {
    assert (a + s)[i + 1..] == a[i + 1..] + s;
    FirstFreeOfAppend(a[i + 1..], s);
  }

  lemma HeadLink(a: Layout, s: Layout, p: int)
    requires LastFreeBelow(a, |a|, p)
    ensures FirstFree(a + s) == if p < 0 then FirstFree(s) else FirstFree(a)
  {
    FirstFreeOfAppend(a, s);
    assert p >= 0 ==> a[p].free;
  }

  function SplitWrites(m: seq<int>, a: nat, n: nat, prev: int): seq<int>
    requires a + HEADER + n + HEADER <= |m|
    requires prev == NULL || 0 <= prev < |m| - NEXT
  {
    var b := a + HEADER + n;
    var m1 := m[b := m[a] - (n + HEADER)][b + NEXT := m[a + NEXT]];
    var m2 := m1[a := n][a + NEXT := TAKEN];
    if prev != NULL then m2[prev + NEXT := b] else m2
  }

  lemma SplitAround(cs: Layout, k: nat, n: nat)
    requires k < |cs| && cs[k].size >= n + HEADER
    ensures cs == cs[..k] + cs[k..] && |Split(cs, k, n)| == |cs| + 1
    ensures Split(cs, k, n) == cs[..k] + Split(cs, k, n)[k..]
    ensures Split(cs, k, n)[k + 2..] == cs[k + 1..]
  {
  }

  lemma SplitHead(cs: Layout, total: nat, k: nat, p: int, n: nat)
    requires Tiles(cs, total) && k < |cs| && cs[k].free && cs[k].size >= n + HEADER
    requires LastFreeBelow(cs, k, p)
    ensures FirstFree(Split(cs, k, n)) == if p < 0 then cs[k].addr + HEADER + n else FirstFree(cs)
    ensures p < 0 <==> FirstFree(cs) == cs[k].addr
  {
    hide Tiles, FirstFree, Split;
    if p < 0 {
      FirstFreeFound(cs, k);
      SplitIndices(cs, k, n);
      FirstFreeFound(Split(cs, k, n), k + 1);
    } else {
      FirstFreeLowest(cs, total, p);
      Ordered(cs, total, p, k);
      SplitAround(cs, k, n);
      BelowOnly(cs, k, p);
      HeadLink(cs[..k], cs[k..], p);
      HeadLink(cs[..k], Split(cs, k, n)[k..], p);
    }
  }

  lemma BelowOnly(cs: Layout, k: nat, p: int)
    requires k <= |cs| && LastFreeBelow(cs, k, p)
    ensures LastFreeBelow(cs[..k], |cs[..k]|, p) && (p >= 0 ==> cs[..k][p] == cs[p])
  {
  }

  lemma SplitLink(cs: Layout, k: nat, p: int, n: nat, i: nat)
    requires k < |cs| && cs[k].free && cs[k].size >= n + HEADER
    requires LastFreeBelow(cs, k, p) && i <= |cs| && i != k
    ensures var r, b := Split(cs, k, n), cs[k].addr + HEADER + n;
            NextWord(r, i) == if i == p then b else if i < k then NextWord(cs, i) else NextWord(cs, i - 1)
  {
    var r := Split(cs, k, n);
    if i < k {
      assert cs == cs[..k] + cs[k..];
      assert r == cs[..k] + r[k..];
      FirstFreeFound(r[k..], 1);
      LinkBelow(cs[..k], cs[k..], r[k..], p, i);
    } else {
      assert r[i + 1..] == cs[i..];
    }
  }

  lemma SplitEncodes(m: seq<int>, head: int, cs: Layout, k: nat, p: int, n: nat)
    requires Encodes(m, head, cs) && k < |cs| && cs[k].free && cs[k].size >= n + HEADER
    requires LastFreeBelow(cs, k, p)
    ensures cs[k].End() <= |m| && (p >= 0 ==> cs[p].End() <= |m|)
    ensures var b := cs[k].addr + HEADER + n;
            Encodes(SplitWrites(m, cs[k].addr, n, AddrOrNull(cs, p)), if p < 0 then b else head,
                    Split(cs, k, n))
    ensures p < 0 <==> head == cs[k].addr
  {
    Bounded(cs, |m|, k);
    if p >= 0 {
      Bounded(cs, |m|, p);
      Ordered(cs, |m|, p, k);
    }
    var m' := SplitWrites(m, cs[k].addr, n, AddrOrNull(cs, p));
    var r := Split(cs, k, n);
    SplitTiles(cs, |m|, k, n);
    SplitHead(cs, |m|, k, p, n);
    forall i | 0 <= i < |r| ensures HeaderIs(m', r[i].addr, r[i].size, NextWord(r, i)) {
      SplitHeader(m, head, cs, k, p, n, i);
    }
  }

  lemma SplitHeader(m: seq<int>, head: int, cs: Layout, k: nat, p: int, n: nat, i: nat)
    requires Encodes(m, head, cs) && k < |cs| && cs[k].free && cs[k].size >= n + HEADER
    requires LastFreeBelow(cs, k, p) && i <= |cs|
    requires cs[k].End() <= |m| && (p >= 0 ==> cs[p].End() <= cs[k].addr)
    ensures var r := Split(cs, k, n);
            HeaderIs(SplitWrites(m, cs[k].addr, n, AddrOrNull(cs, p)), r[i].addr, r[i].size, NextWord(r, i))
  {
    hide FirstFree, Tiles;
    var src := if i <= k then i else i - 1;
    var r := Split(cs, k, n);
    assert HeaderIs(m, cs[src].addr, cs[src].size, NextWord(cs, src));
    ApartFrom(cs, |m|, src, k);
    if p >= 0 {
      ApartFrom(cs, |m|, src, p);
    }
    if i != k {
      SplitLink(cs, k, p, n, i);
    }
    assert i < k ==> r[i] == cs[i];
    assert i > k + 1 ==> r[i] == cs[i - 1];
  }

  function LinkWrites(m: seq<int>, a: nat, next: int, prev: int): (r: seq<int>)
    requires a + HEADER <= |m|
    requires prev == NULL || 0 <= prev < |m| - NEXT
    ensures |r| == |m|
  {
    var m1 := m[a + NEXT := next];
    if prev != NULL then m1[prev + NEXT := a] else m1
  }

  lemma LinkedAround(cs: Layout, t: nat)
    requires t < |cs|
    ensures var r := Linked(cs, t);
      && |r| == |cs| && r[t] == cs[t].(free := true) && (forall i :: 0 <= i < |cs| && i != t ==> r[i] == cs[i])
      && cs == cs[..t] + cs[t..] && r == cs[..t] + r[t..] && r[t + 1..] == cs[t + 1..]
  {
  }

  lemma LinkLayout(cs: Layout, total: nat, t: nat, p: int)
    requires Tiles(cs, total) && t < |cs| && !cs[t].free && LastFreeBelow(cs, t, p)
    ensures FirstFree(Linked(cs, t)) == if p < 0 then cs[t].addr else FirstFree(cs)
    ensures p < 0 ==> FirstFree(cs) == FirstFree(cs[t + 1..])
    ensures p >= 0 ==> NextWord(cs, p) == FirstFree(cs[t + 1..]) && 0 <= FirstFree(cs) <= cs[p].addr
  {
    TakenFirst(cs, t);
    hide Tiles, FirstFree, Linked, NextWord;
    var r := Linked(cs, t);
    LinkedAround(cs, t);
    BelowOnly(cs, t, p);
    HeadLink(cs[..t], cs[t..], p);
    if p < 0 {
      FirstFreeFound(r, t);
    } else {
      HeadLink(cs[..t], r[t..], p);
      FirstFreeLowest(cs, total, p);
      LinkBelow(cs[..t], cs[t..], r[t..], p, p);
    }
  }

  lemma TakenFirst(cs: Layout, t: nat)
    requires t < |cs| && !cs[t].free
    ensures FirstFree(cs[t..]) == FirstFree(cs[t + 1..])
  {
    assert cs[t..][1..] == cs[t + 1..];
  }

  lemma LinkedNext(cs: Layout, t: nat, p: int, i: nat)
    requires t < |cs| && !cs[t].free && LastFreeBelow(cs, t, p) && i < |cs|
    ensures NextWord(Linked(cs, t), i)
         == if i == t then FirstFree(cs[t + 1..]) else if i == p then cs[t].addr else NextWord(cs, i)
  {
    hide FirstFree, Linked;
    var r := Linked(cs, t);
    LinkedAround(cs, t);
    if i < t {
      hide NextWord;
      BelowOnly(cs, t, p);
      LinkBelow(cs[..t], cs[t..], r[t..], p, i);
      FirstFreeFound(r[t..], 0);
    } else {
      assert r[i + 1..] == cs[i + 1..];
    }
  }

  lemma LinkHeader(m: seq<int>, head: int, cs: Layout, t: nat, p: int, i: nat)
    requires Encodes(m, head, cs) && t < |cs| && !cs[t].free && LastFreeBelow(cs, t, p) && i < |cs|
    requires cs[t].End() <= |m| && (p >= 0 ==> cs[p].End() <= cs[t].addr)
    ensures var r, next := Linked(cs, t), FirstFree(cs[t + 1..]);
            HeaderIs(LinkWrites(m, cs[t].addr, next, AddrOrNull(cs, p)), r[i].addr, r[i].size, NextWord(r, i))
  {
    hide Tiles, FirstFree, Linked, NextWord;
    assert HeaderIs(m, cs[i].addr, cs[i].size, NextWord(cs, i));
    LinkedAround(cs, t);
    LinkedNext(cs, t, p, i);
    ApartFrom(cs, |m|, i, t);
    if p >= 0 {
      ApartFrom(cs, |m|, i, p);
    }
  }

  lemma LinkEncodes(m: seq<int>, head: int, cs: Layout, t: nat, p: int)
    requires Encodes(m, head, cs) && t < |cs| && !cs[t].free && LastFreeBelow(cs, t, p)
    ensures cs[t].End() <= |m| && (p >= 0 ==> cs[p].End() <= |m|)
    ensures var next := FirstFree(cs[t + 1..]);
            && (if p < 0 then head == next else m[cs[p].addr + NEXT] == next)
            && Encodes(LinkWrites(m, cs[t].addr, next, AddrOrNull(cs, p)), if p < 0 then cs[t].addr else head,
                       Linked(cs, t))
  {
    hide Tiles, FirstFree, Linked, NextWord, LinkWrites;
    Bounded(cs, |m|, t);
    if p >= 0 {
      Bounded(cs, |m|, p);
      Ordered(cs, |m|, p, t);
      assert HeaderIs(m, cs[p].addr, cs[p].size, NextWord(cs, p));
    }
    LinkLayout(cs, |m|, t, p);
    LinkedTiles(cs, |m|, t);
    LinkedAround(cs, t);
    var r := Linked(cs, t);
    var m' := LinkWrites(m, cs[t].addr, FirstFree(cs[t + 1..]), AddrOrNull(cs, p));
    forall i | 0 <= i < |r| ensures HeaderIs(m', r[i].addr, r[i].size, NextWord(r, i)) {
      LinkHeader(m, head, cs, t, p, i);
    }
  }

  function MergeWrites(m: seq<int>, a: nat, b: nat): (r: seq<int>)
    requires a + HEADER <= |m| && b + HEADER <= |m|
    ensures |r| == |m|
  {
    m[a := m[a] + HEADER + m[b]][a + NEXT := m[b + NEXT]]
  }

  lemma MergeAround(cs: Layout, k: nat, i: nat)
    requires k + 1 < |cs| && i + 1 < |cs|
    ensures var r := Merge(cs, k);
      cs == cs[..k] + cs[k..] && r == cs[..k] + r[k..] && (i >= k ==> r[i + 1..] == cs[i + 2..])
  {
  }

  lemma MergeLink(cs: Layout, k: nat, i: nat)
    requires k + 1 < |cs| && cs[k].free && cs[k + 1].free && i + 1 < |cs|
    ensures NextWord(Merge(cs, k), i) == NextWord(cs, if i < k then i else i + 1)
    ensures FirstFree(Merge(cs, k)) == FirstFree(cs)
  {
    hide FirstFree, Merge;
    var r := Merge(cs, k);
    var below := cs[..k];
    MergeIndices(cs, k);
    MergeAround(cs, k, i);
    FirstFreeFound(cs[k..], 0);
    FirstFreeFound(r[k..], 0);
    FirstFreeOfAppend(below, cs[k..]);
    FirstFreeOfAppend(below, r[k..]);
    if i < k {
      NextWordBelow(below, cs[k..], i);
      NextWordBelow(below, r[k..], i);
    }
  }

  lemma MergeHeader(m: seq<int>, head: int, cs: Layout, k: nat, i: nat)
    requires Encodes(m, head, cs) && k + 1 < |cs| && cs[k].free && cs[k + 1].free && i + 1 < |cs|
    requires cs[k].End() == cs[k + 1].addr && cs[k + 1].End() <= |m|
    ensures var r := Merge(cs, k);
      HeaderIs(MergeWrites(m, cs[k].addr, cs[k + 1].addr), r[i].addr, r[i].size, NextWord(r, i))
  {
    hide Tiles, FirstFree, NextWord, Merge;
    var src := if i < k then i else i + 1;
    assert HeaderIs(m, cs[k].addr, cs[k].size, NextWord(cs, k));
    assert HeaderIs(m, cs[k + 1].addr, cs[k + 1].size, NextWord(cs, k + 1));
    assert HeaderIs(m, cs[src].addr, cs[src].size, NextWord(cs, src));
    MergeIndices(cs, k);
    MergeLink(cs, k, i);
    ApartFrom(cs, |m|, src, k);
  }

  lemma FirstLink(m: seq<int>, head: int, cs: Layout, k: nat)
    requires Encodes(m, head, cs) && k + 1 < |cs| && cs[k].free && cs[k + 1].free
    ensures cs[k].End() == cs[k + 1].addr && cs[k + 1].End() <= |m|
    ensures m[cs[k].addr + NEXT] == cs[k + 1].addr
  {
    assert cs[k + 1].addr == cs[k].End();
    hide Tiles, FirstFree;
    Bounded(cs, |m|, k + 1);
    FirstFreeFound(cs[k + 1..], 0);
    assert HeaderIs(m, cs[k].addr, cs[k].size, NextWord(cs, k));
  }

  lemma MergeEncodes(m: seq<int>, head: int, cs: Layout, k: nat)
    requires Encodes(m, head, cs) && k + 1 < |cs| && cs[k].free && cs[k + 1].free
    ensures cs[k].End() <= cs[k + 1].End() <= |m|
    ensures m[cs[k].addr + NEXT] == cs[k + 1].addr
    ensures Encodes(MergeWrites(m, cs[k].addr, cs[k + 1].addr), head, Merge(cs, k))
  {
    hide Tiles, FirstFree, NextWord, Merge, MergeWrites, HeaderIs;
    FirstLink(m, head, cs, k);
    var r := Merge(cs, k);
    MergeIndices(cs, k);
    MergeTiles(cs, |m|, k);
    MergeLink(cs, k, k);
    forall i | 0 <= i < |r|
      ensures HeaderIs(MergeWrites(m, cs[k].addr, cs[k + 1].addr), r[i].addr, r[i].size, NextWord(r, i)) {
      MergeHeader(m, head, cs, k, i);
    }
  }

  /** Following one link of the free list. */
  lemma {:induction false} NextFreeIndex(cs: Layout, from: nat) returns (j: nat)
    requires from <= |cs|
    ensures from <= j <= |cs|
    ensures FirstFree(cs[from..]) == if j < |cs| then cs[j].addr else NULL
    ensures j < |cs| ==> cs[j].free
    ensures forall i :: from <= i < j ==> !cs[i].free
    decreases |cs| - from
  {
    if from < |cs| && !cs[from].free {
      j := NextFreeIndex(cs, from + 1);
      assert cs[from..][1..] == cs[from + 1..];
    } else {
      j := from;
    }
  }

  ghost predicate NoFitBelow(cs: Layout, k: nat, n: nat) {
    k <= |cs| && forall i :: 0 <= i < k ==> !Fits(cs[i], n)
  }

  /** The walk along the free list starts at the first free chunk, of which there is one. */
  lemma WalkStart(m: seq<int>, head: int, cs: Layout, n: nat) returns (k: nat)
    requires WellFormed(cs, |m|) && Encodes(m, head, cs)
    ensures k < |cs| && cs[k].free && head == cs[k].addr
    ensures LastFreeBelow(cs, k, -1) && NoFitBelow(cs, k, n)
  {
    assert cs[|cs| - 1].free && cs[0..] == cs;
    hide WellFormed, Tiles, FirstFree;
    k := NextFreeIndex(cs, 0);
  }

  /** From free chunk k one step along the list leads to the next free chunk, or past the end. */
  lemma WalkStep(m: seq<int>, head: int, cs: Layout, k: nat, n: nat) returns (next: nat)
    requires Encodes(m, head, cs) && k < |cs| && cs[k].free && NoFitBelow(cs, k, n)
    ensures cs[k].addr + HEADER <= |m| && m[cs[k].addr] == cs[k].size && m[cs[k].addr + NEXT] != TAKEN
    ensures k < next <= |cs| && m[cs[k].addr + NEXT] == if next < |cs| then cs[next].addr else NULL
    ensures (next < |cs| ==> cs[next].free) && LastFreeBelow(cs, next, k)
    ensures cs[k].size < n + HEADER ==> NoFitBelow(cs, next, n)
    ensures cs[k].size >= n + HEADER ==> Fits(cs[k], n)
  {
    hide Tiles, FirstFree;
    assert HeaderIs(m, cs[k].addr, cs[k].size, NextWord(cs, k));
    next := NextFreeIndex(cs, k + 1);
  }

  lemma WalkEnd(cs: Layout, k: nat, n: nat)
    requires NoFitBelow(cs, k, n) && (k < |cs| ==> Fits(cs[k], n))
    ensures FirstFit(cs, n) == k
  {
    FirstFitUnique(cs, n, k);
  }

  /** The ghost layout adds nothing to the memory: the header words alone determine it. */
  lemma {:induction false} HeadersDetermineLayout(m: seq<int>, head: int, a: Layout, b: Layout, i: nat)
    requires Encodes(m, head, a) && Encodes(m, head, b) && i <= |a|
    ensures i <= |b| && a[..i] == b[..i]
    ensures i == |a| ==> a == b
  {
    hide FirstFree;
    if i > 0 {
      var k := i - 1;
      HeadersDetermineLayout(m, head, a, b, k);
      Bounded(a, |m|, k);
      assert k > 0 ==> a[k - 1] == a[..k][k - 1] == b[..k][k - 1] == b[k - 1];
      assert k < |b| && a[k].addr == b[k].addr;
      assert HeaderIs(m, a[k].addr, a[k].size, NextWord(a, k));
      assert HeaderIs(m, b[k].addr, b[k].size, NextWord(b, k));
      var j := NextFreeIndex(a, k + 1);
      j := NextFreeIndex(b, k + 1);
      assert a[..i] == a[..k] + [a[k]] && b[..i] == b[..k] + [b[k]];
      assert i == |a| ==> b[k].End() == |m|;
      assert i < |b| ==> b[i].addr == b[k].End();
      assert i < |b| ==> b[i].End() <= |m| by {
        if i < |b| {
          Bounded(b, |m|, i);
        }
      }
    }
  }

  /** Whatever the client stores inside its own blocks, the headers still encode the layout. */
  lemma ClientWritesAreHarmless(m: seq<int>, m': seq<int>, head: int, cs: Layout)
    requires Encodes(m, head, cs) && |m'| == |m|
    requires forall x :: 0 <= x < |m| && m'[x] != m[x] ==> exists c :: c in Live(cs) && c.Payload() <= x < c.End()
    ensures Encodes(m', head, cs)
  {
    hide FirstFree;
    forall i | 0 <= i < |cs| ensures HeaderIs(m', cs[i].addr, cs[i].size, NextWord(cs, i)) {
      assert HeaderIs(m, cs[i].addr, cs[i].size, NextWord(cs, i));
      forall c | c in Live(cs) ensures c.End() <= cs[i].addr || cs[i].Payload() <= c.Payload() {
        HeaderOutsidePayloads(cs, |m|, i, c);
      }
    }
  }

  class Allocator {
    var pool: array<int>
    var poolHead: int
    var initialized: bool
    var error: int
    ghost var chunks: Layout

    ghost predicate Valid()
      reads this, pool
    {
      initialized ==>
        && WellFormed(chunks, pool.Length)
        && Encodes(pool[..], poolHead, chunks)
        && pool.Length <= INT_MAX + HEADER
    }

    constructor ()
      ensures Valid() && !initialized && error == 0
    {
      pool := new int[0];
      poolHead := NULL;
      initialized := false;
      error := 0;
      chunks := [];
    }

    method MemInit(sizeOfRegion: int, pageSize: nat) returns (rc: int)
      requires Valid()
      requires 0 < pageSize && pageSize % 4 == 0 && sizeOfRegion <= INT_MAX - (pageSize - 1)
      modifies this
      ensures Valid()
      ensures sizeOfRegion < 1 || old(initialized) ==>
                && rc == -1 && error == E_BAD_ARGS && initialized == old(initialized)
                && pool == old(pool) && chunks == old(chunks) && poolHead == old(poolHead)
      ensures sizeOfRegion >= 1 && !old(initialized) ==>
                && rc == 0 && initialized && error == old(error) && fresh(pool)
                && exists total: nat :: chunks == InitialLayout(total) && total % pageSize == 0
                                        && sizeOfRegion <= total < sizeOfRegion + pageSize
    {
      if sizeOfRegion < 1 || initialized {
        error := E_BAD_ARGS;
        return -1;
      }
      var rounded := sizeOfRegion;
      if rounded % pageSize != 0 {
        rounded := rounded + (pageSize - rounded % pageSize);
      }
      RoundedToPage(sizeOfRegion, pageSize, rounded);
      pool := new int[rounded + HEADER](_ => 0);
      poolHead := 0;
      pool[0] := rounded;
      pool[NEXT] := NULL;
      initialized := true;
      chunks := InitialLayout(rounded);
      rc := 0;
    }

    /** The walk along the free list; k and p are where it stands in the layout. */
    method FindFit(size: nat) returns (currentNode: int, previousNode: int, ghost k: nat, ghost p: int)
      requires Valid() && initialized
      ensures k == FirstFit(chunks, size) && LastFreeBelow(chunks, k, p)
      ensures currentNode == (if k < |chunks| then chunks[k].addr else NULL)
      ensures previousNode == AddrOrNull(chunks, p)
    {
      hide WellFormed, Encodes, Fits, FirstFit, LastFreeBelow, NoFitBelow;
      currentNode, previousNode := poolHead, NULL;
      p := -1;
      k := WalkStart(pool[..], poolHead, chunks, size);
      while true
        invariant k < |chunks| && chunks[k].free && currentNode == chunks[k].addr
        invariant p < |chunks| && LastFreeBelow(chunks, k, p) && previousNode == AddrOrNull(chunks, p)
        invariant NoFitBelow(chunks, k, size)
        decreases |chunks| - k
        modifies {}
      {
        ghost var next := WalkStep(pool[..], poolHead, chunks, k, size);
        if pool[currentNode] < size + HEADER {
          if pool[currentNode + NEXT] != TAKEN {
            previousNode := currentNode;
          }
          currentNode := pool[currentNode + NEXT];
          p, k := k, next;
        } else {
          break;
        }
        if currentNode == NULL {
          break;
        }
      }
      WalkEnd(chunks, k, size);
    }

    /** The header writes of a split, addresses taken as they come. */
    method WriteSplit(currentNode: nat, previousNode: int, size: nat) returns (nodeToAdd: int)
      requires currentNode + HEADER + size + HEADER <= pool.Length
      requires previousNode == NULL || 0 <= previousNode < pool.Length - NEXT
      modifies pool
      ensures nodeToAdd == currentNode + HEADER + size
      ensures pool[..] == SplitWrites(old(pool[..]), currentNode, size, previousNode)
    {
      nodeToAdd := currentNode + HEADER + size;
      pool[nodeToAdd] := pool[currentNode] - (size + HEADER);
      pool[nodeToAdd + NEXT] := pool[currentNode + NEXT];
      pool[currentNode] := size;
      pool[currentNode + NEXT] := TAKEN;
      if previousNode != NULL {
        pool[previousNode + NEXT] := nodeToAdd;
      }
    }

    /** Splits chunk k for a block of the given size and takes the block off the free list. */
    method Carve(currentNode: int, previousNode: int, size: nat, ghost k: nat, ghost p: int)
        returns (returnAddress: int)
      requires initialized && Encodes(pool[..], poolHead, chunks)
      requires k < |chunks| && Fits(chunks[k], size) && currentNode == chunks[k].addr
      requires LastFreeBelow(chunks, k, p) && previousNode == AddrOrNull(chunks, p)
      modifies this`poolHead, this`chunks, pool
      ensures returnAddress == old(chunks)[k].Payload()
      ensures chunks == Split(old(chunks), k, size) && Encodes(pool[..], poolHead, chunks)
      ensures PayloadsKept(old(pool[..]), pool[..], Live(old(chunks)))
    {
      assert Tiles(chunks, pool.Length) && p < |chunks|;
      hide Encodes, Tiles, FirstFree, LastFreeBelow, PayloadsKept;
      SplitEncodes(pool[..], poolHead, chunks, k, p, size);
      SplitKeepsPayloads(pool[..], chunks, k, p, size);
      returnAddress := currentNode + HEADER;
      var nodeToAdd := WriteSplit(currentNode, previousNode, size);
      if currentNode == poolHead {
        poolHead := nodeToAdd;
      }
      chunks := Split(chunks, k, size);
    }

    method MemAlloc(request: int) returns (ptr: int)
      requires Valid() && request <= INT_MAX - 3
      modifies this, pool
      ensures Valid() && pool == old(pool) && initialized == old(initialized)
      ensures !initialized ==> ptr == NULL && error == E_NO_SPACE && chunks == old(chunks)
      ensures initialized && request < 1 ==>
                ptr == NULL && error == E_BAD_ARGS && chunks == old(chunks)
      ensures initialized && request >= 1 ==>
                var n := RoundUp(request);
                && chunks == AfterAlloc(old(chunks), n)
                && (ptr == NULL <==> forall i :: 0 <= i < |old(chunks)| ==> !Fits(old(chunks)[i], n))
                && (ptr == NULL ==> error == E_NO_SPACE)
                && (ptr != NULL ==> error == old(error) && FirstFit(old(chunks), n) < |old(chunks)|
                                    && ptr == old(chunks)[FirstFit(old(chunks), n)].Payload())
      ensures ptr == NULL ==> poolHead == old(poolHead) && pool[..] == old(pool[..])
      ensures initialized ==> PayloadsKept(old(pool[..]), pool[..], Live(old(chunks)))
    {
      hide WellFormed, Encodes;
      if !initialized {
        error := E_NO_SPACE;
        assert pool[..] == old(pool[..]);
        return NULL;
      }
      if request < 1 {
        error := E_BAD_ARGS;
        assert pool[..] == old(pool[..]);
        return NULL;
      }
      var size := request;
      if size % 4 != 0 {
        size := size + (4 - size % 4);
      }
      var currentNode, previousNode;
      ghost var k, p;
      currentNode, previousNode, k, p := FindFit(size);
      if currentNode == NULL {
        error := E_NO_SPACE;
        assert pool[..] == old(pool[..]);
        return NULL;
      }
      AllocKeepsWellFormed(chunks, pool.Length, size);
      ptr := Carve(currentNode, previousNode, size, k, p);
    }

    /** The stride walk from the start of the pool up to the header to free. */
    method FindPlace(nodeToFree: int, ghost t: nat)
        returns (currentNode: int, lastFreeNode: int, ghost p: int)
      requires Valid() && initialized
      requires t < |chunks| && !chunks[t].free && nodeToFree == chunks[t].addr
      ensures currentNode == nodeToFree
      ensures LastFreeBelow(chunks, t, p) && lastFreeNode == AddrOrNull(chunks, p)
    {
      currentNode, lastFreeNode := 0, NULL;
      ghost var i := 0;
      p := -1;
      while true
        invariant i <= t && currentNode == chunks[i].addr
        invariant LastFreeBelow(chunks, i, p) && lastFreeNode == AddrOrNull(chunks, p)
        decreases t - i
        modifies {}
      {
        if currentNode == nodeToFree {
          AddressesDiffer(chunks, pool.Length, i, t);
          break;
        }
        assert HeaderIs(pool[..], chunks[i].addr, chunks[i].size, NextWord(chunks, i));
        NotLast(chunks, pool.Length, i, t);
        if pool[currentNode + NEXT] != NULL {
          if pool[currentNode + NEXT] != TAKEN {
            lastFreeNode := currentNode;
            p := i;
          }
          currentNode := currentNode + HEADER + pool[currentNode];
          i := i + 1;
        } else {
          currentNode := NULL;
        }
        if currentNode == NULL {
          break;
        }
      }
    }

    /** Puts the header back on the free list, behind the nearest free chunk below it. */
    method LinkIn(nodeToFree: int, lastFreeNode: int, ghost t: nat, ghost p: int)
      requires initialized && Encodes(pool[..], poolHead, chunks)
      requires t < |chunks| && !chunks[t].free && nodeToFree == chunks[t].addr
      requires LastFreeBelow(chunks, t, p) && lastFreeNode == AddrOrNull(chunks, p)
      requires AnyFree(chunks)
      modifies this`poolHead, this`chunks, pool
      ensures chunks == Linked(old(chunks), t) && Encodes(pool[..], poolHead, chunks)
      ensures PayloadsKept(old(pool[..]), pool[..], Live(old(chunks)))
    {
      assert Tiles(chunks, pool.Length) && poolHead == FirstFree(chunks);
      hide Encodes, Tiles, FirstFree, LastFreeBelow, PayloadsKept;
      ghost var m := pool[..];
      LinkEncodes(m, poolHead, chunks, t, p);
      LinkKeepsPayloads(m, chunks, t, p);
      HeadSide(chunks, pool.Length, t, p);
      if nodeToFree < poolHead {
        pool[nodeToFree + NEXT] := poolHead;
        poolHead := nodeToFree;
      } else {
        pool[nodeToFree + NEXT] := pool[lastFreeNode + NEXT];
        pool[lastFreeNode + NEXT] := nodeToFree;
      }
      assert pool[..] == LinkWrites(m, chunks[t].addr, FirstFree(chunks[t + 1..]), AddrOrNull(chunks, p));
      chunks := Linked(chunks, t);
    }

    /** Chunk k takes in its right neighbour; `node` and `right` are their headers. */
    method Absorb(node: int, right: int, ghost k: nat)
      requires initialized && Encodes(pool[..], poolHead, chunks)
      requires k + 1 < |chunks| && chunks[k].free && chunks[k + 1].free
      requires node == chunks[k].addr && right == chunks[k + 1].addr
      modifies this`chunks, pool
      ensures chunks == Merge(old(chunks), k) && Encodes(pool[..], poolHead, chunks)
      ensures PayloadsKept(old(pool[..]), pool[..], Live(old(chunks)))
      ensures forall x :: 0 <= x < pool.Length && x != node && x != node + NEXT ==> pool[x] == old(pool[x])
    {
      ghost var m := pool[..];
      MergeEncodes(m, poolHead, chunks, k);
      MergeKeepsPayloads(m, chunks, k);
      pool[node] := pool[node] + HEADER + pool[right];
      pool[node + NEXT] := pool[right + NEXT];
      assert pool[..] == MergeWrites(m, chunks[k].addr, chunks[k + 1].addr);
      chunks := Merge(chunks, k);
    }

    method MemFree(ptr: int) returns (success: int)
      requires Valid()
      requires ptr != NULL ==> initialized && HEADER <= ptr <= pool.Length
      requires ptr != NULL && pool[ptr - HEADER + NEXT] == TAKEN ==> BlockAt(chunks, ptr) < |chunks|
      modifies this, pool
      ensures Valid() && pool == old(pool) && initialized == old(initialized)
      ensures ptr == NULL ==> success == 0 && error == old(error)
      ensures ptr != NULL && BlockAt(old(chunks), ptr) == |old(chunks)| ==> success == -1 && error == E_BAD_POINTER
      ensures ptr != NULL && old(pool[ptr - HEADER + NEXT]) != TAKEN ==> BlockAt(old(chunks), ptr) == |old(chunks)|
      ensures ptr == NULL || BlockAt(old(chunks), ptr) == |old(chunks)| ==>
                chunks == old(chunks) && poolHead == old(poolHead) && pool[..] == old(pool[..])
      ensures ptr != NULL && BlockAt(old(chunks), ptr) < |old(chunks)| ==>
                && success == 0 && error == old(error)
                && chunks == AfterFree(old(chunks), ptr)
                && pool[ptr - HEADER + NEXT] != TAKEN
                && PayloadsKept(old(pool[..]), pool[..], Live(chunks))
    {
      hide WellFormed, Encodes, PayloadsKept;
      success := -1;
      var nodeToFree := ptr - HEADER;
      if ptr == NULL {
        return 0;
      }
      ghost var t := BlockAt(chunks, ptr);
      if t < |chunks| {
        TakenMark(pool[..], poolHead, chunks, t);
      }
      if pool[nodeToFree + NEXT] != TAKEN {
        error := E_BAD_POINTER;
        assert pool[..] == old(pool[..]);
        return -1;
      }
      Release(nodeToFree, t);
      success := 0;
    }

    /** The walk, the relinking and both merges, for a header known to be taken. */
    method Release(node: int, ghost t: nat)
      requires Valid() && initialized
      requires t < |chunks| && !chunks[t].free && node == chunks[t].addr
      modifies this`poolHead, this`chunks, pool
      ensures Valid() && chunks == AfterRelease(old(chunks), t)
      ensures PayloadsKept(old(pool[..]), pool[..], Live(chunks))
      ensures 0 <= node + NEXT < pool.Length && pool[node + NEXT] != TAKEN
    {
      hide WellFormed, Encodes, Tiles, PayloadsKept, FirstFree, LastFreeBelow;
      ReleaseKeepsWellFormed(chunks, pool.Length, t);
      ghost var m0, cs := pool[..], chunks;
      ghost var total := pool.Length;
      var currentNode, lastFreeNode;
      ghost var p;
      currentNode, lastFreeNode, p := FindPlace(node, t);
      LastIsFree(chunks, total);
      LinkIn(node, lastFreeNode, t, p);
      ghost var m1, cs1 := pool[..], chunks;
      var nodeToFree := node;
      RightTest(m1, poolHead, cs, t);
      if pool[nodeToFree + NEXT] != NULL && currentNode + HEADER + pool[currentNode] == pool[currentNode + NEXT] {
        Absorb(nodeToFree, pool[nodeToFree + NEXT], t);
      }
      ghost var m2, cs2 := pool[..], chunks;
      LeftTest(m2, poolHead, cs, cs2, t, p);
      FreeMark(m2, poolHead, cs2, t);
      if lastFreeNode != NULL {
        if lastFreeNode + HEADER + pool[lastFreeNode] == nodeToFree {
          Absorb(lastFreeNode, nodeToFree, t - 1);
          nodeToFree := lastFreeNode;
        }
      }
      ReleaseLive(cs, total, t);
      KeptAcross(m0, m1, m2, pool[..], Live(cs), Live(cs1), Live(cs2), Live(chunks));
    }
  }

  /** The header of a free chunk never reads as taken. */
  lemma FreeMark(m: seq<int>, head: int, cs: Layout, t: nat)
    requires Encodes(m, head, cs) && t < |cs| && cs[t].free
    ensures cs[t].addr + HEADER <= |m| && m[cs[t].addr + NEXT] != TAKEN
  {
    hide FirstFree, Tiles;
    assert HeaderIs(m, cs[t].addr, cs[t].size, NextWord(cs, t));
    var j := NextFreeIndex(cs, t + 1);
  }

  lemma KeptAcross(m0: seq<int>, m1: seq<int>, m2: seq<int>, m3: seq<int>,
                   b0: set<Chunk>, b1: set<Chunk>, b2: set<Chunk>, b3: set<Chunk>)
    requires PayloadsKept(m0, m1, b0) && b3 <= b2 <= b1 <= b0
    requires m2 == m1 || PayloadsKept(m1, m2, b1)
    requires m3 == m2 || PayloadsKept(m2, m3, b2)
    ensures PayloadsKept(m0, m3, b3)
  {
  }

  lemma ReleaseLive(cs: Layout, total: nat, t: nat)
    requires WellFormed(cs, total) && t < |cs| && !cs[t].free
    ensures var linked := Linked(cs, t);
            var right := if t + 1 < |cs| && cs[t + 1].free then Merge(linked, t) else linked;
            Live(AfterRelease(cs, t)) <= Live(right) <= Live(linked) <= Live(cs)
  {
    var linked := Linked(cs, t);
    var right := if t + 1 < |cs| && cs[t + 1].free then Merge(linked, t) else linked;
    if t + 1 < |cs| && cs[t + 1].free {
      MergeLive(linked, t);
    }
    if t > 0 && cs[t - 1].free {
      MergeLive(right, t - 1);
    }
  }

  lemma LastIsFree(cs: Layout, total: nat)
    requires WellFormed(cs, total)
    ensures AnyFree(cs)
  {
    assert cs[|cs| - 1].free;
  }

  lemma TakenMark(m: seq<int>, head: int, cs: Layout, t: nat)
    requires Encodes(m, head, cs) && t < |cs|
    ensures cs[t].addr + HEADER <= |m|
    ensures !cs[t].free ==> m[cs[t].addr + NEXT] == TAKEN
  {
    assert HeaderIs(m, cs[t].addr, cs[t].size, NextWord(cs, t));
  }

  /** A free chunk is followed in the list by its right neighbour exactly when that one is free. */
  lemma RightNeighbour(cs: Layout, total: nat, t: nat)
    requires Tiles(cs, total) && t < |cs|
    ensures FirstFree(cs[t + 1..]) == cs[t].End() <==> t + 1 < |cs| && cs[t + 1].free
  {
    var j := NextFreeIndex(cs, t + 1);
    if t + 1 < |cs| {
      assert cs[t + 1].addr == cs[t].End();
    }
    if t + 1 < j < |cs| {
      Ordered(cs, total, t + 1, j);
    }
  }

  lemma RightTest(m: seq<int>, head: int, cs: Layout, t: nat)
    requires t < |cs| && Encodes(m, head, Linked(cs, t))
    ensures var a := cs[t].addr;
      && a + HEADER <= |m|
      && (m[a + NEXT] != NULL && a + HEADER + m[a] == m[a + NEXT] <==> t + 1 < |cs| && cs[t + 1].free)
      && (t + 1 < |cs| && cs[t + 1].free ==> m[a + NEXT] == cs[t + 1].addr)
  {
    var r := Linked(cs, t);
    assert HeaderIs(m, r[t].addr, r[t].size, NextWord(r, t));
    RightNeighbour(r, |m|, t);
    if t + 1 < |cs| && cs[t + 1].free {
      assert r[t + 1].addr == r[t].End();
    }
  }

  lemma LeftTest(m: seq<int>, head: int, cs: Layout, r: Layout, t: nat, p: int)
    requires WellFormed(cs, |m|) && t < |cs| && LastFreeBelow(cs, t, p) && Encodes(m, head, r)
    requires |r| > t && r[..t] == cs[..t]
    ensures p >= 0 ==> cs[p].addr + HEADER <= cs[t].addr && cs[p].addr + HEADER <= |m|
    ensures p >= 0 && cs[p].addr + HEADER + m[cs[p].addr] == cs[t].addr <==> t > 0 && cs[t - 1].free
    ensures t > 0 && cs[t - 1].free ==> p == t - 1 && r[t - 1] == cs[t - 1]
  {
    if p >= 0 {
      Ordered(cs, |m|, p, t);
      assert r[p] == r[..t][p] == cs[p];
      assert HeaderIs(m, r[p].addr, r[p].size, NextWord(r, p));
      if p < t - 1 {
        Ordered(cs, |m|, p, t - 1);
        assert cs[t].addr == cs[t - 1].End();
      } else {
        assert cs[t].addr == cs[t - 1].End();
      }
    }
  }

  lemma NotLast(cs: Layout, total: nat, i: nat, t: nat)
    requires WellFormed(cs, total) && t < |cs| && !cs[t].free && i <= t && cs[i].addr != cs[t].addr
    ensures i < t && cs[i + 1].addr == cs[i].End() && NextWord(cs, i) != NULL
    ensures cs[i].free <==> NextWord(cs, i) != TAKEN
  {
    var j := NextFreeIndex(cs, i + 1);
    FirstFreeOfAppend(cs[i + 1..], []);
    assert cs[i + 1..][|cs| - i - 2].free;
  }

  /** Comparing the header with the list head tells whether a free chunk lies below it. */
  lemma HeadSide(cs: Layout, total: nat, t: nat, p: int)
    requires Tiles(cs, total) && t < |cs| && !cs[t].free && LastFreeBelow(cs, t, p) && AnyFree(cs)
    ensures cs[t].addr < FirstFree(cs) <==> p < 0
  {
    if p >= 0 {
      FirstFreeLowest(cs, total, p);
      Ordered(cs, total, p, t);
    } else {
      var j := NextFreeIndex(cs, 0);
      assert cs[0..] == cs;
      Ordered(cs, total, t, j);
    }
  }

  lemma HeaderOutsidePayloads(cs: Layout, total: nat, i: nat, c: Chunk)
    requires Tiles(cs, total) && i < |cs| && c in cs
    ensures c.End() <= cs[i].addr || cs[i].Payload() <= c.Payload()
  {
    var j :| 0 <= j < |cs| && cs[j] == c;
    ApartFrom(cs, total, i, j);
  }

  lemma LinkKeepsPayloads(m: seq<int>, cs: Layout, t: nat, p: int)
    requires Tiles(cs, |m|) && t < |cs| && cs[t].End() <= |m|
    requires LastFreeBelow(cs, t, p) && (p >= 0 ==> cs[p].End() <= |m|)
    ensures PayloadsKept(m, LinkWrites(m, cs[t].addr, FirstFree(cs[t + 1..]), AddrOrNull(cs, p)), Live(cs))
  {
    forall c | c in Live(cs)
      ensures c.End() <= cs[t].addr || cs[t].Payload() <= c.Payload()
      ensures p >= 0 ==> c.End() <= cs[p].addr || cs[p].Payload() <= c.Payload()
    {
      HeaderOutsidePayloads(cs, |m|, t, c);
      if p >= 0 {
        HeaderOutsidePayloads(cs, |m|, p, c);
      }
    }
  }

  lemma MergeKeepsPayloads(m: seq<int>, cs: Layout, k: nat)
    requires Tiles(cs, |m|) && k + 1 < |cs| && cs[k].End() <= |m| && cs[k + 1].End() <= |m|
    ensures PayloadsKept(m, MergeWrites(m, cs[k].addr, cs[k + 1].addr), Live(cs))
  {
    forall c | c in Live(cs) ensures c.End() <= cs[k].addr || cs[k].Payload() <= c.Payload() {
      HeaderOutsidePayloads(cs, |m|, k, c);
    }
  }

  lemma RoundedToPage(n: int, page: nat, r: int)
    requires n >= 1 && page > 0 && page % 4 == 0
    requires r == if n % page != 0 then n + (page - n % page) else n
    ensures n <= r < n + page && r % page == 0 && r % 4 == 0
  {
    var q := n / page;
    assert n == q * page + n % page;
    var k := if n % page != 0 then q + 1 else q;
    assert r == k * page;
    DivUnique(r, page, k, 0);
    assert r == (k * (page / 4)) * 4 by {
      assert page == page / 4 * 4;
      assert (k * (page / 4)) * 4 == k * (page / 4 * 4);
    }
    DivUnique(r, 4, k * (page / 4), 0);
  }

  lemma SplitKeepsPayloads(m: seq<int>, cs: Layout, k: nat, p: int, n: nat)
    requires Tiles(cs, |m|) && k < |cs| && cs[k].free && cs[k].size >= n + HEADER && cs[k].End() <= |m|
    requires LastFreeBelow(cs, k, p) && (p >= 0 ==> cs[p].End() <= |m|)
    ensures PayloadsKept(m, SplitWrites(m, cs[k].addr, n, AddrOrNull(cs, p)), Live(cs))
  {
    forall c | c in Live(cs)
      ensures c.End() <= cs[k].addr || cs[k].End() <= c.addr
      ensures p >= 0 ==> c.End() <= cs[p].addr || cs[p].End() <= c.addr
    {
      var i :| 0 <= i < |cs| && cs[i] == c;
      ApartFrom(cs, |m|, i, k);
      if p >= 0 {
        ApartFrom(cs, |m|, i, p);
      }
    }
  }
}
