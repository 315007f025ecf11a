/** What a write does that the guard of its handler refuses and fails to stop: it goes through
    whatever pointer the inode holds. When the image survives it, and what it overwrites. */
module FsWrites {
  import opened Basics
  import opened FsImage
  import opened FsConsistency
  import opened FsHandlers
  import opened FsProperties

  /** Slot s lies in data block number n. */
  predicate InBlock(img: Image, s: Slot, n: int) {
    HasBlock(img, s.dir, s.block) && BlockOf(img, s.dir, s.block) == n
  }

  /** A write that lands in the data region, asked of a consistent image. */
  ghost predicate Landing(img: Image, w: Witness, i: int, b: int, buffer: Block) {
    Consistent(img, w) && WriteInRange(i, b) && WriteLands(img, Write(i, buffer, b))
  }

  /** A slot outside the block written names what it named before, whatever the inode. */
  lemma OtherSlot(img: Image, w: Witness, i: int, b: int, buffer: Block, s: Slot)
    requires Landing(img, w, i, b, buffer) && !InBlock(img, s, LandsAt(img, i, b))
    requires b == img.inodes[i].blocks ==> (s.dir, s.block) != (i, b)
    ensures var img' := Written(img, i, b, buffer);
      && Named(img', s) == Named(img, s)
      && (Named(img, s) != EMPTY ==> NameAt(img', s) == NameAt(img, s))
  {
    hide NamesOk, DepthOk, DotsOk, SizesOk, RootNamesOk, CStr, LowestClear;
    if HasBlock(img, s.dir, s.block) {
      BlockFacts(img, w, s.dir, s.block);
    }
  }

  // ----- A directory is the target -----

  function BlockSlots(i: int, b: int): set<Slot> {
    set e: int | 0 <= e < DIR_ENT_COUNT :: Slot(i, b, e)
  }

  lemma BlockSlotsCount(i: int, b: int)
    ensures |BlockSlots(i, b)| == DIR_ENT_COUNT
  {
    EntriesCount(i, b, DIR_ENT_COUNT);
  }

  lemma {:induction false} EntriesCount(i: int, b: int, n: nat)
    ensures |set e: int | 0 <= e < n :: Slot(i, b, e)| == n
  {
    if n > 0 {
      EntriesCount(i, b, n - 1);
      assert (set e: int | 0 <= e < n :: Slot(i, b, e))
          == (set e: int | 0 <= e < n - 1 :: Slot(i, b, e)) + {Slot(i, b, n - 1)};
    }
  }

  /** The size a write adds to a directory leaves room for only one explanation: the block held no
      entry before and sixteen now. */
  lemma SixteenMore(live: set<Slot>, live': set<Slot>, block: set<Slot>)
    requires |block| == DIR_ENT_COUNT && |live'| == |live| + DIR_ENT_COUNT
    requires live' <= live + block && live - block <= live'
    ensures live !! block && block <= live'
  {
    assert live' == (live' - live) + (live' * live) && (live' - live) !! (live' * live);
    assert |live'| == |live' - live| + |live' * live|;
    SubsetSize(live' * live, live);
    SubsetSize(live' - live, block);
  }

  lemma InSlotBlock(img: Image, s: Slot, i: int, b: int)
    requires s in LiveSlots(img, s.dir) && (s.dir, s.block) == (i, b)
    ensures s in BlockSlots(i, b)
  {
  }

  /** Directory i has grown by sixteen entries' worth of size, and only slots of its block c differ. */
  lemma SwollenUnsound(img: Image, w: Witness, img': Image, i: int, c: int, w': Witness)
    requires Consistent(img, w) && IsDir(img, i) && IsDir(img', i)
    requires img'.inodes[i].size == img.inodes[i].size + BLOCK_SIZE
    requires forall s: Slot :: (s.dir, s.block) != (i, c) ==> Named(img', s) == Named(img, s)
    requires forall j :: Allocated(img', j) ==> Allocated(img, j)
    ensures !Consistent(img', w')
  {
    hide BlocksOk, InodesOk, DepthOk, RootNamesOk, Named, IsDir, Allocated;
    if Consistent(img', w') {
      var live, live', block := LiveSlots(img, i), LiveSlots(img', i), BlockSlots(i, c);
      BlockSlotsCount(i, c);
      assert |live'| == |live| + DIR_ENT_COUNT;
      SixteenMore(live, live', block);
      var t := Slot(i, c, 2);
      assert t in block;
      assert Slot(i, 0, 0) in live;
      var j := Named(img', t);
      assert !t.IsDot() && j != EMPTY && j != 0 && Allocated(img, j);
      var s := w.namer[j];
      assert Named(img, s) == j;
      AllocatedIsNat(img, j);
      InLiveSlots(img, s);
      InSlotBlock(img, s, i, c);
    }
  }

  lemma AllocatedIsNat(img: Image, j: int)
    ensures Allocated(img, j) ==> j >= 0
  {
  }

  /** The size alone is wrong already when none of the directory's slots has changed. */
  lemma SizeUnsound(img: Image, w: Witness, img': Image, i: int, w': Witness)
    requires Consistent(img, w) && IsDir(img, i) && IsDir(img', i)
    requires img'.inodes[i].size != img.inodes[i].size
    requires forall s: Slot :: s.dir == i ==> Named(img', s) == Named(img, s)
    ensures !Consistent(img', w')
  {
    hide BlocksOk, InodesOk, NamesOk, DotsOk, DepthOk, RootNamesOk, Named, IsDir, Allocated;
    assert LiveSlots(img', i) == LiveSlots(img, i);
  }

  lemma WrittenInodes(img: Image, w: Witness, i: int, b: int, buffer: Block)
    requires Landing(img, w, i, b, buffer)
    ensures var img' := Written(img, i, b, buffer);
      && (forall j :: Allocated(img', j) <==> Allocated(img, j))
      && (forall j :: IsDir(img', j) <==> IsDir(img, j))
      && |img'.inodes| == |img.inodes| && img'.inodes[i].size == img.inodes[i].size + BLOCK_SIZE
      && forall j :: 0 <= j < |img.inodes| && j != i ==> img'.inodes[j] == img.inodes[j]
  {
    hide BlocksOk, NamesOk, DepthOk, DotsOk, SizesOk, RootNamesOk, LowestClear;
  }

  lemma DirectoryWriteUnsound(img: Image, w: Witness, i: int, b: int, buffer: Block, w': Witness)
    requires Landing(img, w, i, b, buffer) && IsDir(img, i)
    ensures !Consistent(Written(img, i, b, buffer), w')
  {
    hide InodesOk, NamesOk, DotsOk, SizesOk, DepthOk, RootNamesOk, BlocksOk, Named, NameAt, IsDir, Allocated,
      WriteBlock, LowestClear;
    WrittenInodes(img, w, i, b, buffer);
    var img', n := Written(img, i, b, buffer), LandsAt(img, i, b);
    if b == img.inodes[i].blocks {
      forall s: Slot | (s.dir, s.block) != (i, b) ensures Named(img', s) == Named(img, s) {
        NotTaken(img, w, n, s);
        OtherSlot(img, w, i, b, buffer, s);
      }
      SwollenUnsound(img, w, img', i, b, w');
    } else if c :| HasBlock(img, i, c) && BlockOf(img, i, c) == n {
      forall s: Slot | (s.dir, s.block) != (i, c) ensures Named(img', s) == Named(img, s) {
        NotShared(img, w, i, c, s);
        OtherSlot(img, w, i, b, buffer, s);
      }
      SwollenUnsound(img, w, img', i, c, w');
    } else {
      forall s: Slot | s.dir == i ensures Named(img', s) == Named(img, s) {
        OtherSlot(img, w, i, b, buffer, s);
      }
      SizeUnsound(img, w, img', i, w');
    }
  }

  lemma NotShared(img: Image, w: Witness, i: int, c: int, s: Slot)
    requires Shape(img) && BlocksOk(img, w) && HasBlock(img, i, c) && (s.dir, s.block) != (i, c)
    ensures !InBlock(img, s, BlockOf(img, i, c))
  {
    BlockFacts(img, w, i, c);
    if HasBlock(img, s.dir, s.block) {
      BlockFacts(img, w, s.dir, s.block);
    }
  }

  lemma NotTaken(img: Image, w: Witness, n: int, s: Slot)
    requires Shape(img) && BlocksOk(img, w) && 0 <= n < BITMAP_COUNT && !img.dataBits[n]
    ensures !InBlock(img, s, n)
  {
    if HasBlock(img, s.dir, s.block) {
      BlockFacts(img, w, s.dir, s.block);
    }
  }

  // ----- An unallocated inode is the target -----

  /** The next block of an inode that is not allocated is a leak. */
  lemma LeakUnsound(img: Image, w: Witness, i: int, b: int, buffer: Block, w': Witness)
    requires Landing(img, w, i, b, buffer) && b == img.inodes[i].blocks && !Allocated(img, i)
    ensures !Consistent(Written(img, i, b, buffer), w')
  {
    hide NamesOk, DepthOk, DotsOk, SizesOk, RootNamesOk, InodesOk;
    var img', n := Written(img, i, b, buffer), LandsAt(img, i, b);
    if Consistent(img', w') {
      var (j, c) := w'.owner[n];
    }
  }

  // ----- Beyond the end -----

  /** A write to neither an existing block nor the next one: the pointer followed is stale. */
  ghost predicate Stray(img: Image, w: Witness, i: int, b: int, buffer: Block) {
    Landing(img, w, i, b, buffer) && b > img.inodes[i].blocks
  }

  lemma StrayInodes(img: Image, w: Witness, i: int, b: int, buffer: Block)
    requires Stray(img, w, i, b, buffer) && !IsDir(img, i)
    ensures var img' := Written(img, i, b, buffer);
      && Shape(img') && InodesOk(img') && SameInodes(img, img') && DirSizesKept(img, img') && SameBlocks(img, img')
  {
    hide BlocksOk, NamesOk, DepthOk, DotsOk, SizesOk, RootNamesOk;
    var img' := Written(img, i, b, buffer);
    assert forall j :: Allocated(img', j) <==> Allocated(img, j);
    assert forall j :: 0 <= j < BITMAP_COUNT ==>
      img'.inodes[j].blocks == img.inodes[j].blocks && img'.inodes[j].pointer == img.inodes[j].pointer
      && img'.inodes[j].kind == img.inodes[j].kind;
  }

  /** The block belongs to no directory. */
  ghost predicate NoDirectoryBlock(img: Image, n: int) {
    forall j, c :: IsDir(img, j) && HasBlock(img, j, c) ==> BlockOf(img, j, c) != n
  }

  lemma StrayKeeps(img: Image, w: Witness, i: int, b: int, buffer: Block)
    requires Stray(img, w, i, b, buffer) && !IsDir(img, i) && NoDirectoryBlock(img, LandsAt(img, i, b))
    ensures Consistent(Written(img, i, b, buffer), w)
  {
    hide InodesOk, BlocksOk, NamesOk, DepthOk, DotsOk, SizesOk, RootNamesOk, Named, NameAt, SameInodes, DirSizesKept,
      SameBlocks, WriteBlock, HasBlock, BlockOf, IsDir;
    StrayInodes(img, w, i, b, buffer);
    var img' := Written(img, i, b, buffer);
    assert SameNaming(img, img') by {
      forall s {
        StraySlot(img, w, i, b, buffer, s);
      }
    }
    NamingFrame(img, img', w, w);
    SameBlocksFrame(img, img', w, w);
  }

  lemma StraySlot(img: Image, w: Witness, i: int, b: int, buffer: Block, s: Slot)
    requires Stray(img, w, i, b, buffer) && NoDirectoryBlock(img, LandsAt(img, i, b))
    ensures var img' := Written(img, i, b, buffer);
      && Named(img', s) == Named(img, s)
      && (Named(img, s) != EMPTY ==> NameAt(img', s) == NameAt(img, s))
  {
    hide NamesOk, DepthOk, DotsOk, SizesOk, RootNamesOk, BlocksOk, CStr;
    if InBlock(img, s, LandsAt(img, i, b)) {
      assert !IsDir(img, s.dir);
    } else {
      OtherSlot(img, w, i, b, buffer, s);
    }
  }

  // ----- A directory's block is overwritten -----

  /** Entry e of block c of a directory is live and no dot entry. */
  predicate Child(b: Block, c: int, e: int) {
    0 <= e < DIR_ENT_COUNT && !(c == 0 && e <= 1) && b[e].inum != EMPTY
  }

  function Children(b: Block, c: int): set<int> {
    set e: int | 0 <= e < DIR_ENT_COUNT && Child(b, c, e) :: b[e].inum
  }

  predicate SameLiveName(b: Block, e: int, f: int) {
    && 0 <= e < DIR_ENT_COUNT && b[e].inum != EMPTY
    && 0 <= f < DIR_ENT_COUNT && b[f].inum != EMPTY
    && SameName(b[e].name, b[f].name)
  }

  /** The new entries of block c of directory j do the work of the old ones: the same dots, the same
      inodes, each of them once, and in the root's first block no name twice. */
  ghost predicate EntriesKept(was: Block, now: Block, j: int, c: int) {
    && (c == 0 ==> forall e :: 0 <= e <= 1 ==> now[e].inum == was[e].inum && SameName(now[e].name, was[e].name))
    && Children(now, c) == Children(was, c)
    && (forall e, f :: Child(now, c, e) && Child(now, c, f) && now[e].inum == now[f].inum ==> e == f)
    && (j == 0 && c == 0 ==> forall e, f :: SameLiveName(now, e, f) ==> e == f)
  }

  /** The slots of block c of directory j read as the entries of b. */
  ghost predicate Reads(img: Image, j: int, c: int, b: Block) {
    forall e ::
      if 0 <= e < DIR_ENT_COUNT then
        Named(img, Slot(j, c, e)) == b[e].inum && NameAt(img, Slot(j, c, e)) == CStr(b[e].name)
      else Named(img, Slot(j, c, e)) == EMPTY
  }

  /** Only the slots of block c of directory j differ. */
  ghost predicate Replaced(img: Image, img': Image, j: int, c: int, was: Block, now: Block) {
    && IsDir(img, j) && 0 <= c < POINTERS && SameInodes(img, img') && DirSizesKept(img, img')
    && Reads(img, j, c, was) && Reads(img', j, c, now)
    && forall s: Slot :: (s.dir, s.block) != (j, c) ==>
         Named(img', s) == Named(img, s) && (Named(img, s) != EMPTY ==> NameAt(img', s) == NameAt(img, s))
  }

  predicate SlotIn(s: Slot, j: int, c: int) {
    (s.dir, s.block) == (j, c)
  }

  ghost function IndexOf(b: Block, c: int, x: int): (e: int)
    requires x in Children(b, c)
    ensures Child(b, c, e) && b[e].inum == x
  {
    var e :| Child(b, c, e) && b[e].inum == x;
    e
  }

  /** The inodes named in the block are named by other entries of it now. */
  ghost function Renamed(w: Witness, now: Block, j: int, c: int): Witness {
    w.(namer := map x | x in w.namer ::
         if x in Children(now, c) && SlotIn(w.namer[x], j, c) then Slot(j, c, IndexOf(now, c, x)) else w.namer[x])
  }

  lemma ChildIn(b: Block, c: int, e: int)
    requires Child(b, c, e)
    ensures b[e].inum in Children(b, c)
  {
  }

  /** Who is in the block is who the namer says is in it. */
  lemma ChildNamed(img: Image, w: Witness, j: int, c: int, b: Block, x: int)
    requires NamesOk(img, w) && Reads(img, j, c, b)
    ensures x in Children(b, c) <==> x != 0 && Allocated(img, x) && x in w.namer && SlotIn(w.namer[x], j, c)
  {
    hide Named, Allocated;
    AllocatedIsNat(img, x);
    if x in Children(b, c) {
      var e := IndexOf(b, c, x);
      assert Named(img, Slot(j, c, e)) == x && !Slot(j, c, e).IsDot();
    } else if x != 0 && Allocated(img, x) && SlotIn(w.namer[x], j, c) {
      var s := w.namer[x];
      assert s == Slot(j, c, s.entry) && Named(img, s) == x;
      assert Child(b, c, s.entry);
      ChildIn(b, c, s.entry);
    }
  }

  lemma RenamedNames(img: Image, img': Image, w: Witness, j: int, c: int, was: Block, now: Block)
    requires NamesOk(img, w) && DepthOk(img, w) && Replaced(img, img', j, c, was, now) && EntriesKept(was, now, j, c)
    ensures NamesOk(img', Renamed(w, now, j, c)) && DepthOk(img', Renamed(w, now, j, c))
  {
    hide Named, NameAt, Allocated, IsDir, DirSizesKept, Children;
    var w' := Renamed(w, now, j, c);
    forall x
      ensures x in Children(now, c) <==> x != 0 && Allocated(img, x) && x in w.namer && SlotIn(w.namer[x], j, c)
    {
      ChildNamed(img, w, j, c, was, x);
    }
    forall s: Slot | Named(img', s) != EMPTY && !s.IsDot()
      ensures var i := Named(img', s); i != 0 && Allocated(img', i) && i in w'.namer && w'.namer[i] == s
    {
      if SlotIn(s, j, c) {
        assert s == Slot(j, c, s.entry);
        assert Child(now, c, s.entry);
        ChildIn(now, c, s.entry);
      } else {
        assert Named(img, s) == Named(img', s);
      }
    }
    forall i | Allocated(img', i) && i != 0
      ensures i in w'.namer && !w'.namer[i].IsDot() && Named(img', w'.namer[i]) == i
      ensures w'.namer[i].dir == w.namer[i].dir
    {
      assert Named(img, w.namer[i]) == i;
    }
  }

  lemma RenamedDots(img: Image, img': Image, w: Witness, j: int, c: int, was: Block, now: Block)
    requires DotsOk(img, w) && RootNamesOk(img) && Replaced(img, img', j, c, was, now) && EntriesKept(was, now, j, c)
    ensures DotsOk(img', Renamed(w, now, j, c)) && RootNamesOk(img')
  {
    hide Named, NameAt, Allocated, IsDir, DirSizesKept, Children, CStr;
    var w' := Renamed(w, now, j, c);
    forall d | IsDir(img', d)
      ensures Named(img', Slot(d, 0, 0)) == d != EMPTY && NameAt(img', Slot(d, 0, 0)) == DOT
      ensures Named(img', Slot(d, 0, 1)) == ParentOf(w', d) != EMPTY && NameAt(img', Slot(d, 0, 1)) == DOTDOT
    {
      assert ParentOf(w', d) == ParentOf(w, d);
      assert Named(img, Slot(d, 0, 0)) == d != EMPTY && Named(img, Slot(d, 0, 1)) == ParentOf(w, d) != EMPTY;
    }
    forall s, t | RootEntry(img', s) && RootEntry(img', t) && NameAt(img', s) == NameAt(img', t) ensures s == t {
      if (j, c) == (0, 0) {
        assert s == Slot(j, c, s.entry) && t == Slot(j, c, t.entry);
        assert SameLiveName(now, s.entry, t.entry);
      } else {
        assert RootEntry(img, s) && RootEntry(img, t);
      }
    }
  }

  // ----- As many entries as before -----

  function ChildIndices(b: Block, c: int): set<int> {
    set e: int | 0 <= e < DIR_ENT_COUNT && Child(b, c, e)
  }

  lemma ChildrenCount(b: Block, c: int)
    requires forall e, f :: Child(b, c, e) && Child(b, c, f) && b[e].inum == b[f].inum ==> e == f
    ensures |Children(b, c)| == |ChildIndices(b, c)|
  {
    var f := (e: int) => if 0 <= e < DIR_ENT_COUNT then b[e].inum else 0;
    ImageSize(ChildIndices(b, c), DIR_ENT_COUNT, f);
    forall x ensures x in Children(b, c) <==> x in set e | e in ChildIndices(b, c) :: f(e) {
      if x in Children(b, c) {
        var e :| Child(b, c, e) && b[e].inum == x;
        assert e in ChildIndices(b, c) && f(e) == x;
      }
    }
    assert Children(b, c) == set e | e in ChildIndices(b, c) :: f(e);
  }

  /** The live entries of block c, the dots included. */
  function LiveIndices(b: Block, c: int): set<int> {
    ChildIndices(b, c) + if c == 0 then {0, 1} else {}
  }

  lemma LiveInside(img: Image, j: int, c: int, b: Block, s: Slot)
    requires Reads(img, j, c, b) && 0 <= c < POINTERS && SlotIn(s, j, c)
    requires c == 0 ==> b[0].inum != EMPTY && b[1].inum != EMPTY
    ensures s in LiveSlots(img, j) <==> s.entry in LiveIndices(b, c)
  {
    hide Named, NameAt, CStr;
    assert s == Slot(j, c, s.entry);
    InLiveSlots(img, s);
  }

  /** The live slots of a directory, one block set apart. */
  lemma LiveOutside(img: Image, j: int, c: int, b: Block)
    requires Reads(img, j, c, b) && 0 <= c < POINTERS
    requires c == 0 ==> b[0].inum != EMPTY && b[1].inum != EMPTY
    ensures var outside := set s | s in LiveSlots(img, j) && s.block != c;
      |LiveSlots(img, j)| == |outside| + |ChildIndices(b, c)| + if c == 0 then 2 else 0
  {
    hide Named, NameAt, CStr, Reads, LiveSlots, LiveIndices;
    var outside := set s | s in LiveSlots(img, j) && s.block != c;
    var f := (e: int) => Slot(j, c, e);
    var inside := set e | e in LiveIndices(b, c) :: f(e);
    LiveCount(b, c);
    ImageSize(LiveIndices(b, c), DIR_ENT_COUNT, f);
    forall s ensures s in LiveSlots(img, j) <==> s in outside || s in inside {
      LiveHere(img, j, s);
      if SlotIn(s, j, c) {
        LiveInside(img, j, c, b, s);
        assert s == f(s.entry);
      }
    }
    assert LiveSlots(img, j) == outside + inside && outside !! inside;
  }

  lemma LiveHere(img: Image, j: int, s: Slot)
    ensures s in LiveSlots(img, j) ==> s.dir == j
  {
  }

  lemma LiveCount(b: Block, c: int)
    ensures forall e :: e in LiveIndices(b, c) ==> 0 <= e < DIR_ENT_COUNT
    ensures |LiveIndices(b, c)| == |ChildIndices(b, c)| + if c == 0 then 2 else 0
  {
    if c == 0 {
      assert ChildIndices(b, c) !! {0, 1};
    }
  }

  lemma RenamedSizes(img: Image, img': Image, w: Witness, j: int, c: int, was: Block, now: Block)
    requires NamesOk(img, w) && DotsOk(img, w) && SizesOk(img)
    requires Replaced(img, img', j, c, was, now) && EntriesKept(was, now, j, c)
    ensures SizesOk(img')
  {
    hide Named, NameAt, Allocated, IsDir, CStr, Children;
    forall d | IsDir(img', d) && d != j ensures LiveSlots(img', d) == LiveSlots(img, d) {
    }
    assert (set s | s in LiveSlots(img', j) && s.block != c) == (set s | s in LiveSlots(img, j) && s.block != c);
    forall e, f | Child(was, c, e) && Child(was, c, f) && was[e].inum == was[f].inum ensures e == f {
      assert Named(img, Slot(j, c, e)) == Named(img, Slot(j, c, f)) && !Slot(j, c, e).IsDot() && !Slot(j, c, f).IsDot();
    }
    ChildrenCount(was, c);
    ChildrenCount(now, c);
    if c == 0 {
      assert Named(img, Slot(j, c, 0)) != EMPTY && Named(img, Slot(j, c, 1)) != EMPTY;
    }
    LiveOutside(img, j, c, was);
    LiveOutside(img', j, c, now);
  }

  // ----- The condition is needed -----

  lemma SameParent(img: Image, img': Image, w: Witness, w': Witness, j: int, c: int, was: Block, now: Block)
    requires NamesOk(img, w) && NamesOk(img', w') && DepthOk(img, w) && DotsOk(img, w) && DotsOk(img', w')
    requires Replaced(img, img', j, c, was, now)
    ensures ParentOf(w', j) == ParentOf(w, j)
  {
    hide Named, NameAt, DirSizesKept, Reads, CStr;
    AllocatedIsNat(img, j);
    if j != 0 {
      var s := w.namer[j];
      assert Named(img, s) == j;
      NotOwnParent(img, w, s);
      assert Named(img', s) == j;
    }
  }

  lemma ReplacedNeeds(img: Image, img': Image, w: Witness, w': Witness, j: int, c: int, was: Block, now: Block)
    requires Consistent(img, w) && Consistent(img', w') && Replaced(img, img', j, c, was, now)
    ensures EntriesKept(was, now, j, c)
  {
    hide Named, NameAt, IsDir, DirSizesKept, InodesOk, BlocksOk, SizesOk, CStr, Children;
    SameParent(img, img', w, w', j, c, was, now);
    forall x ensures x in Children(now, c) <==> x in Children(was, c) {
      StaysInBlock(img, img', w, w', j, c, was, now, x);
    }
    forall e, f | Child(now, c, e) && Child(now, c, f) && now[e].inum == now[f].inum ensures e == f {
      var s, t := Slot(j, c, e), Slot(j, c, f);
      assert Named(img', s) == Named(img', t) && !s.IsDot() && !t.IsDot();
    }
    if c == 0 {
      assert Named(img, Slot(j, 0, 0)) == Named(img', Slot(j, 0, 0));
      assert Named(img, Slot(j, 0, 1)) == Named(img', Slot(j, 0, 1));
      assert NameAt(img, Slot(j, 0, 0)) == NameAt(img', Slot(j, 0, 0));
      assert NameAt(img, Slot(j, 0, 1)) == NameAt(img', Slot(j, 0, 1));
    }
    if j == 0 && c == 0 {
      forall e, f | SameLiveName(now, e, f) ensures e == f {
        assert RootEntry(img', Slot(0, 0, e)) && RootEntry(img', Slot(0, 0, f));
      }
    }
  }

  lemma StaysInBlock(img: Image, img': Image, w: Witness, w': Witness, j: int, c: int, was: Block, now: Block, x: int)
    requires NamesOk(img, w) && NamesOk(img', w') && Replaced(img, img', j, c, was, now)
    ensures x in Children(now, c) <==> x in Children(was, c)
  {
    hide Named, NameAt, DirSizesKept, CStr, IsDir, Children, Allocated;
    ChildNamed(img, w, j, c, was, x);
    ChildNamed(img', w', j, c, now, x);
    AllocatedIsNat(img, x);
    if x != 0 && Allocated(img, x) {
      assert Named(img, w.namer[x]) == x && Named(img', w'.namer[x]) == x;
    }
  }

  // ----- Exactly when the image survives -----

  lemma StrayReplaced(img: Image, w: Witness, i: int, b: int, buffer: Block, j: int, c: int)
    requires Stray(img, w, i, b, buffer) && !IsDir(img, i)
    requires IsDir(img, j) && HasBlock(img, j, c) && BlockOf(img, j, c) == LandsAt(img, i, b)
    ensures Replaced(img, Written(img, i, b, buffer), j, c, img.data[LandsAt(img, i, b)], buffer)
  {
    hide InodesOk, NamesOk, DepthOk, DotsOk, SizesOk, RootNamesOk, CStr, Named, NameAt, IsDir, HasBlock, BlockOf,
      WriteBlock, SameInodes, DirSizesKept, Reads, BlocksOk, LowestClear;
    var img', n := Written(img, i, b, buffer), LandsAt(img, i, b);
    StrayInodes(img, w, i, b, buffer);
    StrayReads(img, w, i, b, buffer, j, c);
    BlockIndex(img, j, c);
    forall s: Slot | (s.dir, s.block) != (j, c)
      ensures Named(img', s) == Named(img, s) && (Named(img, s) != EMPTY ==> NameAt(img', s) == NameAt(img, s))
    {
      NotShared(img, w, j, c, s);
      OtherSlot(img, w, i, b, buffer, s);
    }
  }

  lemma BlockIndex(img: Image, j: int, c: int)
    requires HasBlock(img, j, c)
    ensures 0 <= c < POINTERS
  {
  }

  lemma StrayReads(img: Image, w: Witness, i: int, b: int, buffer: Block, j: int, c: int)
    requires Stray(img, w, i, b, buffer) && !IsDir(img, i)
    requires IsDir(img, j) && HasBlock(img, j, c) && BlockOf(img, j, c) == LandsAt(img, i, b)
    ensures Reads(img, j, c, img.data[LandsAt(img, i, b)]) && Reads(Written(img, i, b, buffer), j, c, buffer)
  {
    hide InodesOk, NamesOk, DepthOk, DotsOk, SizesOk, RootNamesOk, CStr, BlocksOk, LowestClear;
    var img', n := Written(img, i, b, buffer), LandsAt(img, i, b);
    assert j != i && img'.inodes[j] == img.inodes[j] && img'.data[n] == buffer;
    assert IsDir(img', j) && HasBlock(img', j, c);
    forall e | 0 <= e < DIR_ENT_COUNT ensures IsSlot(img, Slot(j, c, e)) && IsSlot(img', Slot(j, c, e)) {
    }
  }

  lemma ReplacedKeeps(img: Image, w: Witness, i: int, b: int, buffer: Block, j: int, c: int)
    requires Stray(img, w, i, b, buffer) && !IsDir(img, i)
    requires IsDir(img, j) && HasBlock(img, j, c) && BlockOf(img, j, c) == LandsAt(img, i, b)
    requires EntriesKept(img.data[LandsAt(img, i, b)], buffer, j, c)
    ensures Consistent(Written(img, i, b, buffer), Renamed(w, buffer, j, c))
  {
    hide InodesOk, NamesOk, DepthOk, DotsOk, SizesOk, RootNamesOk, BlocksOk, IsDir, HasBlock, BlockOf, WriteBlock,
      SameInodes, DirSizesKept, SameBlocks, EntriesKept, Replaced, LowestClear;
    var img', was := Written(img, i, b, buffer), img.data[LandsAt(img, i, b)];
    StrayReplaced(img, w, i, b, buffer, j, c);
    StrayInodes(img, w, i, b, buffer);
    RenamedNames(img, img', w, j, c, was, buffer);
    RenamedDots(img, img', w, j, c, was, buffer);
    RenamedSizes(img, img', w, j, c, was, buffer);
    SameBlocksFrame(img, img', w, Renamed(w, buffer, j, c));
  }

  /** If data block n is a directory's, the buffer keeps the entries in it. */
  ghost predicate Tolerated(img: Image, n: int, buffer: Block)
    requires 0 <= n < |img.data|
  {
    forall j, c :: IsDir(img, j) && HasBlock(img, j, c) && BlockOf(img, j, c) == n ==>
      EntriesKept(img.data[n], buffer, j, c)
  }

  lemma StraySoundIff(img: Image, w: Witness, i: int, b: int, buffer: Block)
    requires Stray(img, w, i, b, buffer) && !IsDir(img, i)
    ensures Sound(Written(img, i, b, buffer)) <==> Tolerated(img, LandsAt(img, i, b), buffer)
  {
    hide Consistent, Written, EntriesKept, HasBlock, BlockOf, IsDir, Replaced;
    ConsistentShape(img, w);
    var img', n := Written(img, i, b, buffer), LandsAt(img, i, b);
    if j, c :| IsDir(img, j) && HasBlock(img, j, c) && BlockOf(img, j, c) == n {
      StrayReplaced(img, w, i, b, buffer, j, c);
      if EntriesKept(img.data[n], buffer, j, c) {
        ReplacedKeeps(img, w, i, b, buffer, j, c);
        forall k, d | IsDir(img, k) && HasBlock(img, k, d) && BlockOf(img, k, d) == n
          ensures EntriesKept(img.data[n], buffer, k, d) {
          OneOwner(img, w, j, c, k, d);
        }
      } else if Sound(img') {
        var w' :| Consistent(img', w');
        ReplacedNeeds(img, img', w, w', j, c, img.data[n], buffer);
      }
    } else {
      StrayKeeps(img, w, i, b, buffer);
    }
  }

  lemma ConsistentShape(img: Image, w: Witness)
    requires Consistent(img, w)
    ensures Shape(img) && InodesOk(img)
  {
  }

  lemma OneOwner(img: Image, w: Witness, j: int, c: int, k: int, d: int)
    requires Consistent(img, w) && HasBlock(img, j, c) && HasBlock(img, k, d)
    requires BlockOf(img, j, c) == BlockOf(img, k, d)
    ensures j == k && c == d
  {
    hide InodesOk, NamesOk, DepthOk, DotsOk, SizesOk, RootNamesOk;
    BlockFacts(img, w, j, c);
    BlockFacts(img, w, k, d);
  }

  /** The guard of the write handler stops none of its writes. Exactly when one that lands in the data
      region leaves a consistent image: its target is no directory; if it takes a new block, its
      target is allocated; and if it goes beyond the end, through a stale pointer, into a block of a
      directory, it writes entries there that do what the old ones did. */
  lemma WriteSoundIff(img: Image, i: int, b: int, buffer: Block)
    requires Sound(img) && WriteInRange(i, b) && WriteLands(img, Write(i, buffer, b))
    ensures Sound(Written(img, i, b, buffer)) <==>
      && !IsDir(img, i)
      && (b == img.inodes[i].blocks ==> Allocated(img, i))
      && (b > img.inodes[i].blocks ==> Tolerated(img, LandsAt(img, i, b), buffer))
  {
    hide Consistent, Written, Tolerated, LandsAt;
    var w :| Consistent(img, w);
    ConsistentShape(img, w);
    var blocks := img.inodes[i].blocks;
    if IsDir(img, i) {
      forall w' ensures !Consistent(Written(img, i, b, buffer), w') {
        DirectoryWriteUnsound(img, w, i, b, buffer, w');
      }
    } else if b > blocks {
      StraySoundIff(img, w, i, b, buffer);
    } else if !Allocated(img, i) {
      forall w' ensures !Consistent(Written(img, i, b, buffer), w') {
        LeakUnsound(img, w, i, b, buffer, w');
      }
    } else {
      var w' := WriteStays(img, w, i, b, buffer);
    }
  }

  /** For a write that reaches an allocated inode only the inode's kind matters. */
  lemma WriteSoundIffNotDirectory(img: Image, i: int, b: int, buffer: Block)
    requires Sound(img) && WriteInReach(img, Write(i, buffer, b)) && WriteInRange(i, b)
    ensures Sound(Written(img, i, b, buffer)) <==> img.inodes[i].kind != DIRECTORY
  {
    hide Sound, Written, Tolerated;
    WriteSoundIff(img, i, b, buffer);
  }

  /** What a write through an existing pointer does to the files: the file that owns the block, which
      need not be the one asked for, has the buffer in it; a block nobody owns does not matter. */
  lemma WriteHitsOwner(img: Image, i: int, b: int, buffer: Block, j: int, c: int)
    requires Sound(img) && WriteInRange(i, b) && WriteLands(img, Write(i, buffer, b)) && b != img.inodes[i].blocks
    ensures var img', n := Written(img, i, b, buffer), LandsAt(img, i, b);
      && (FileBlock(img, j, c).Some? && BlockOf(img, j, c) == n ==> FileBlock(img', j, c) == Some(buffer))
      && (!(FileBlock(img, j, c).Some? && BlockOf(img, j, c) == n) ==> FileBlock(img', j, c) == FileBlock(img, j, c))
      && (!img.dataBits[n] ==> FileBlock(img', j, c) == FileBlock(img, j, c))
  {
    hide NamesOk, DepthOk, DotsOk, SizesOk, RootNamesOk, InodesOk, LowestClear;
    var w :| Consistent(img, w);
    if HasBlock(img, j, c) {
      BlockFacts(img, w, j, c);
    }
  }
}
