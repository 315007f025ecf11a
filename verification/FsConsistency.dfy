/** Every change the handlers make keeps the image consistent. The clauses of consistency speak of
    an image only through a few observations: which inodes are allocated or directories, which
    block each has, what each slot names. So each change is first described by its effect on those,
    one slot or block at a time, and the clauses follow from the description. */
module FsConsistency {
  import opened Basics
  import opened FsImage

  // ----- What the invariant gives at one point -----

  lemma BlockFacts(img: Image, w: Witness, d: int, b: int)
    requires Shape(img) && BlocksOk(img, w) && HasBlock(img, d, b)
    ensures 0 <= BlockOf(img, d, b) < BITMAP_COUNT && img.dataBits[BlockOf(img, d, b)]
    ensures BlockOf(img, d, b) in w.owner && w.owner[BlockOf(img, d, b)] == (d, b)
  {
  }

  /** Dots are the only live slots of a directory whose size is that of two entries. */
  lemma EmptyDirectory(img: Image, w: Witness, s: Slot)
    requires Consistent(img, w) && IsDir(img, s.dir) && img.inodes[s.dir].size == 2 * DIR_ENT_SIZE
    requires !s.IsDot()
    ensures Named(img, s) == EMPTY
  {
    hide Named, IsDir;
    var d := s.dir;
    var dots := {Slot(d, 0, 0), Slot(d, 0, 1)};
    assert dots <= LiveSlots(img, d);
    SubsetSize(dots, LiveSlots(img, d));
    InLiveSlots(img, s);
  }

  lemma InLiveSlots(img: Image, s: Slot)
    ensures Named(img, s) != EMPTY <==> s in LiveSlots(img, s.dir)
  {
    assert s == Slot(s.dir, s.block, s.entry);
  }

  lemma NotOwnParent(img: Image, w: Witness, s: Slot)
    requires NamesOk(img, w) && DepthOk(img, w) && Named(img, s) != EMPTY && !s.IsDot()
    ensures Named(img, s) != s.dir
  {
    var i := Named(img, s);
    assert Allocated(img, i) && w.namer[i] == s;
  }

  // ----- Clauses from observations -----

  ghost predicate SameInodes(img: Image, img': Image) {
    && (forall i :: Allocated(img', i) <==> Allocated(img, i))
    && (forall i :: IsDir(img', i) <==> IsDir(img, i))
  }

  ghost predicate SameNaming(img: Image, img': Image) {
    forall s :: Named(img', s) == Named(img, s) && (Named(img, s) != EMPTY ==> NameAt(img', s) == NameAt(img, s))
  }

  ghost predicate DirSizesKept(img: Image, img': Image) {
    forall d :: IsDir(img, d) ==> IsDir(img', d) && img'.inodes[d].size == img.inodes[d].size
  }

  ghost predicate NamingOk(img: Image, w: Witness) {
    NamesOk(img, w) && DepthOk(img, w) && DotsOk(img, w) && SizesOk(img) && RootNamesOk(img)
  }

  lemma NamingFrame(img: Image, img': Image, w: Witness, w': Witness)
    requires NamingOk(img, w) && w'.namer == w.namer && w'.depth == w.depth
    requires SameInodes(img, img') && SameNaming(img, img') && DirSizesKept(img, img')
    ensures NamingOk(img', w')
  {
    hide Named, NameAt, IsDir, Allocated;
    forall d | IsDir(img', d) ensures LiveSlots(img', d) == LiveSlots(img, d) {
    }
  }

  ghost predicate OneMoreBlock(img: Image, img': Image, i: int, b: int, n: int) {
    && 0 <= n < |img.dataBits| && !img.dataBits[n] && img'.dataBits == img.dataBits[n := true]
    && (forall j, c :: HasBlock(img', j, c) <==> HasBlock(img, j, c) || (j, c) == (i, b))
    && (forall j, c :: HasBlock(img', j, c) ==>
          BlockOf(img', j, c) == if HasBlock(img, j, c) then BlockOf(img, j, c) else n)
  }

  lemma BlocksFrame(img: Image, img': Image, w: Witness, i: int, b: int, n: int)
    requires BlocksOk(img, w) && OneMoreBlock(img, img', i, b, n) && !HasBlock(img, i, b)
    ensures BlocksOk(img', w.(owner := w.owner[n := (i, b)]))
  {
    hide HasBlock, BlockOf;
  }

  ghost predicate SameBlocks(img: Image, img': Image) {
    && (forall j, c :: HasBlock(img', j, c) <==> HasBlock(img, j, c))
    && (forall j, c :: HasBlock(img', j, c) ==> BlockOf(img', j, c) == BlockOf(img, j, c))
    && img'.dataBits == img.dataBits
  }

  lemma SameBlocksFrame(img: Image, img': Image, w: Witness, w': Witness)
    requires BlocksOk(img, w) && SameBlocks(img, img') && w'.owner == w.owner
    ensures BlocksOk(img', w')
  {
    hide HasBlock, BlockOf;
  }

  // ----- A full directory grows -----

  ghost predicate GrowOk(img: Image, w: Witness, d: int, n: int) {
    && Consistent(img, w) && IsDir(img, d) && img.inodes[d].blocks < POINTERS
    && 0 <= n < BITMAP_COUNT && !img.dataBits[n]
  }

  lemma GrowSlot(img: Image, w: Witness, d: int, n: int, buffer: Block, s: Slot)
    requires GrowOk(img, w, d, n)
    ensures var img' := Grow(img, d, n, buffer);
            Named(img', s) == Named(img, s) && (Named(img, s) != EMPTY ==> NameAt(img', s) == NameAt(img, s))
  {
    hide NamesOk, DepthOk, DotsOk, SizesOk, RootNamesOk, CStr;
    if HasBlock(img, s.dir, s.block) {
      BlockFacts(img, w, s.dir, s.block);
    }
  }

  lemma GrowInodes(img: Image, w: Witness, d: int, n: int, buffer: Block)
    requires GrowOk(img, w, d, n)
    ensures Shape(img) && 0 <= d < BITMAP_COUNT && 0 <= n < BITMAP_COUNT && 0 <= img.inodes[d].blocks < POINTERS
    ensures var img' := Grow(img, d, n, buffer);
      && Shape(img') && InodesOk(img') && SameInodes(img, img') && DirSizesKept(img, img')
      && OneMoreBlock(img, img', d, img.inodes[d].blocks, n) && !HasBlock(img, d, img.inodes[d].blocks)
  {
    hide BlocksOk, NamesOk, DepthOk, DotsOk, SizesOk, RootNamesOk;
    var after := Grow(img, d, n, buffer);
    forall j
      ensures Allocated(after, j) ==>
                && 0 <= j < BITMAP_SIZE && 0 <= after.inodes[j].blocks <= POINTERS
                && (IsDir(after, j) ==> after.inodes[j].blocks >= 1)
      ensures 0 <= j < BITMAP_COUNT && !Allocated(after, j) ==> after.inodes[j].blocks <= 0
    {
      assert Allocated(img, j) || !Allocated(img, j);
    }
  }

  lemma GrowKeeps(img: Image, w: Witness, d: int, n: int, buffer: Block)
    requires GrowOk(img, w, d, n)
    ensures Consistent(Grow(img, d, n, buffer), w.(owner := w.owner[n := (d, img.inodes[d].blocks)]))
  {
    hide InodesOk, BlocksOk, NamesOk, DepthOk, DotsOk, SizesOk, RootNamesOk, Named, NameAt, IsDir, Allocated,
      SameInodes, DirSizesKept, OneMoreBlock;
    GrowInodes(img, w, d, n, buffer);
    var img', last := Grow(img, d, n, buffer), img.inodes[d].blocks;
    assert SameNaming(img, img') by {
      forall s {
        GrowSlot(img, w, d, n, buffer, s);
      }
    }
    NamingFrame(img, img', w, w.(owner := w.owner[n := (d, last)]));
    BlocksFrame(img, img', w, d, last, n);
  }

  // ----- A new object is entered in a directory -----

  ghost predicate AddOk(img: Image, w: Witness, s: Slot, i: int, name: seq<char>, node: Inode) {
    && Consistent(img, w) && IsSlot(img, s) && Named(img, s) == EMPTY
    && 0 <= i < BITMAP_SIZE && !Allocated(img, i)
    && node.kind != DIRECTORY && node.blocks == 0
    && forall t :: s.dir == 0 && s.block == 0 && RootEntry(img, t) ==> NameAt(img, t) != CStr(name)
  }

  /** Slot s names inode i and nothing else changes. */
  ghost predicate OneMoreName(img: Image, img': Image, s: Slot, i: int, name: seq<char>) {
    && Named(img', s) == i && NameAt(img', s) == name
    && forall t :: t != s ==>
         Named(img', t) == Named(img, t) && (Named(img, t) != EMPTY ==> NameAt(img', t) == NameAt(img, t))
  }

  ghost predicate OneMoreInode(img: Image, img': Image, i: int) {
    && (forall j :: Allocated(img', j) <==> Allocated(img, j) || j == i)
    && (forall j :: IsDir(img', j) <==> IsDir(img, j))
  }

  ghost predicate EnteredSize(img: Image, img': Image, s: Slot, i: int) {
    forall d :: IsDir(img, d) ==>
      && d < |img.inodes| && d < |img'.inodes| && d != i
      && img'.inodes[d].size == img.inodes[d].size + if d == s.dir then DIR_ENT_SIZE else 0
  }

  ghost predicate Entered(img: Image, img': Image, s: Slot, i: int, name: seq<char>) {
    && IsDir(img, s.dir) && Allocated(img, s.dir) && Named(img, s) == EMPTY && !s.IsDot()
    && 0 <= s.block < POINTERS && 0 <= s.entry < DIR_ENT_COUNT
    && 0 < i && !Allocated(img, i)
    && OneMoreInode(img, img', i) && OneMoreName(img, img', s, i, name) && EnteredSize(img, img', s, i)
  }

  lemma EnteredSizes(img: Image, img': Image, s: Slot, i: int, name: seq<char>)
    requires SizesOk(img) && Entered(img, img', s, i, name)
    ensures SizesOk(img')
  {
    hide Named, NameAt, IsDir, Allocated;
    forall d | IsDir(img', d) && d != s.dir ensures LiveSlots(img', d) == LiveSlots(img, d) {
    }
    InLiveSlots(img, s);
    assert LiveSlots(img', s.dir) == LiveSlots(img, s.dir) + {s};
  }

  lemma NamesSomewhere(img: Image)
    ensures forall t :: Named(img, t) != EMPTY ==> Allocated(img, t.dir)
    ensures forall j :: Allocated(img, j) ==> j >= 0
  {
  }

  lemma EnteredNames(img: Image, img': Image, w: Witness, s: Slot, i: int, name: seq<char>)
    requires NamesOk(img, w) && DepthOk(img, w) && Entered(img, img', s, i, name) && s.dir in w.depth
    ensures var w' := w.(namer := w.namer[i := s], depth := w.depth[i := w.depth[s.dir] + 1]);
            NamesOk(img', w') && DepthOk(img', w')
  {
    hide EnteredSize, Named, NameAt, IsDir, Allocated;
    NamesSomewhere(img);
  }

  lemma EnteredDots(img: Image, img': Image, w: Witness, s: Slot, i: int, name: seq<char>)
    requires DotsOk(img, w) && RootNamesOk(img) && Entered(img, img', s, i, name) && s.dir in w.depth
    requires forall t :: s.dir == 0 && s.block == 0 && RootEntry(img, t) ==> NameAt(img, t) != name
    ensures var w' := w.(namer := w.namer[i := s], depth := w.depth[i := w.depth[s.dir] + 1]);
            DotsOk(img', w') && RootNamesOk(img')
  {
    hide Named, NameAt, IsDir, Allocated;
  }

  lemma AddSlot(img: Image, w: Witness, s: Slot, i: int, name: seq<char>, node: Inode, t: Slot)
    requires AddOk(img, w, s, i, name, node)
    ensures var img' := AddFile(img, s, i, name, node);
      if t == s then Named(img', t) == i && NameAt(img', t) == CStr(name)
      else Named(img', t) == Named(img, t) && NameAt(img', t) == NameAt(img, t)
  {
    hide NamesOk, DepthOk, DotsOk, SizesOk, RootNamesOk, CStr, StrNCpy;
    BlockFacts(img, w, s.dir, s.block);
    if HasBlock(img, t.dir, t.block) {
      BlockFacts(img, w, t.dir, t.block);
    }
    CopiedName(EntryAt(img, s).name, name);
  }

  lemma AddInodes(img: Image, w: Witness, s: Slot, i: int, name: seq<char>, node: Inode)
    requires AddOk(img, w, s, i, name, node)
    ensures var img' := AddFile(img, s, i, name, node);
      && Shape(img') && InodesOk(img') && OneMoreInode(img, img', i) && i != 0
      && EnteredSize(img, img', s, i)
      && SameBlocks(img, img')
  {
    hide BlocksOk, NamesOk, DepthOk, DotsOk, SizesOk, RootNamesOk, CStr, StrNCpy;
    var after := AddFile(img, s, i, name, node);
    forall j
      ensures Allocated(after, j) ==>
                && 0 <= j < BITMAP_SIZE && 0 <= after.inodes[j].blocks <= POINTERS
                && (IsDir(after, j) ==> after.inodes[j].blocks >= 1)
      ensures 0 <= j < BITMAP_COUNT && !Allocated(after, j) ==> after.inodes[j].blocks <= 0
    {
      assert Allocated(img, j) || !Allocated(img, j);
    }
  }

  lemma DirHasDepth(img: Image, w: Witness, d: int)
    requires DepthOk(img, w) && Allocated(img, d)
    ensures d in w.depth
  {
  }

  lemma NotDot(img: Image, w: Witness, s: Slot)
    requires DotsOk(img, w) && IsSlot(img, s) && Named(img, s) == EMPTY
    ensures !s.IsDot() && IsDir(img, s.dir) && Allocated(img, s.dir)
    ensures 0 <= s.block < POINTERS && 0 <= s.entry < DIR_ENT_COUNT
  {
    assert s.IsDot() ==> s == Slot(s.dir, 0, 0) || s == Slot(s.dir, 0, 1);
  }

  lemma AddPlace(img: Image, w: Witness, s: Slot, i: int, name: seq<char>, node: Inode)
    requires AddOk(img, w, s, i, name, node)
    ensures s.dir in w.depth && IsDir(img, s.dir) && Allocated(img, s.dir) && Named(img, s) == EMPTY && !s.IsDot()
    ensures 0 <= s.block < POINTERS && 0 <= s.entry < DIR_ENT_COUNT && 0 < i < BITMAP_COUNT && !Allocated(img, i)
    ensures Shape(img) && IsSlot(img, s) && i != s.dir
  {
    DirHasDepth(img, w, s.dir);
    NotDot(img, w, s);
  }

  lemma AddEntered(img: Image, w: Witness, s: Slot, i: int, name: seq<char>, node: Inode)
    requires AddOk(img, w, s, i, name, node)
    ensures Shape(img) && IsSlot(img, s) && 0 < i < BITMAP_COUNT && i != s.dir
    ensures Entered(img, AddFile(img, s, i, name, node), s, i, CStr(name)) && s.dir in w.depth
  {
    hide AddOk, Named, NameAt, OneMoreInode, EnteredSize, CStr, IsDir, IsSlot, Allocated, AddFile, SameBlocks, InodesOk;
    AddPlace(img, w, s, i, name, node);
    AddInodes(img, w, s, i, name, node);
    var img' := AddFile(img, s, i, name, node);
    assert OneMoreName(img, img', s, i, CStr(name)) by {
      forall t {
        AddSlot(img, w, s, i, name, node, t);
      }
    }
  }

  lemma AddKeeps(img: Image, w: Witness, s: Slot, i: int, name: seq<char>, node: Inode)
    requires AddOk(img, w, s, i, name, node)
    ensures s.dir in w.depth && Shape(img) && IsSlot(img, s) && 0 < i < BITMAP_COUNT && i != s.dir
    ensures Consistent(AddFile(img, s, i, name, node),
                       w.(namer := w.namer[i := s], depth := w.depth[i := w.depth[s.dir] + 1]))
  {
    hide InodesOk, BlocksOk, NamesOk, DepthOk, DotsOk, SizesOk, RootNamesOk, Entered, SameBlocks, AddFile, CStr,
      Named, NameAt, IsSlot, IsDir, Allocated, OneMoreInode, EnteredSize;
    AddInodes(img, w, s, i, name, node);
    AddEntered(img, w, s, i, name, node);
    var img' := AddFile(img, s, i, name, node);
    var w' := w.(namer := w.namer[i := s], depth := w.depth[i := w.depth[s.dir] + 1]);
    EnteredSizes(img, img', s, i, CStr(name));
    EnteredNames(img, img', w, s, i, CStr(name));
    EnteredDots(img, img', w, s, i, CStr(name));
    SameBlocksFrame(img, img', w, w');
  }

  // ----- A fresh inode becomes a directory -----

  ghost predicate MakeDirOk(img: Image, w: Witness, i: int, parent: int, n: int, node: Inode) {
    && Consistent(img, w) && Allocated(img, i) && !IsDir(img, i) && i != 0 && img.inodes[i].blocks == 0
    && 0 <= n < BITMAP_COUNT && !img.dataBits[n] && parent == ParentOf(w, i)
    && node.kind == DIRECTORY && node.size == 2 * DIR_ENT_SIZE && node.blocks == 1 && node.pointer[0] == n
  }

  lemma MakeDirSlot(img: Image, w: Witness, i: int, parent: int, n: int, stack: Block, node: Inode, s: Slot)
    requires MakeDirOk(img, w, i, parent, n, node)
    ensures var img' := MakeDir(img, i, parent, n, stack, node);
      if s == Slot(i, 0, 0) then Named(img', s) == i && NameAt(img', s) == DOT
      else if s == Slot(i, 0, 1) then Named(img', s) == parent && NameAt(img', s) == DOTDOT
      else Named(img', s) == Named(img, s) && (Named(img, s) != EMPTY ==> NameAt(img', s) == NameAt(img, s))
  {
    hide NamesOk, DepthOk, DotsOk, SizesOk, RootNamesOk, CStr, StrNCpy;
    if HasBlock(img, s.dir, s.block) {
      BlockFacts(img, w, s.dir, s.block);
    }
    DotNames(stack[0].name);
    DotNames(stack[1].name);
  }

  lemma MakeDirInodes(img: Image, w: Witness, i: int, parent: int, n: int, stack: Block, node: Inode)
    requires MakeDirOk(img, w, i, parent, n, node)
    ensures var img' := MakeDir(img, i, parent, n, stack, node);
      && Shape(img') && InodesOk(img')
      && (forall j :: Allocated(img', j) <==> Allocated(img, j))
      && (forall j :: IsDir(img', j) <==> IsDir(img, j) || j == i)
      && (forall d :: IsDir(img, d) ==> d < |img'.inodes| && img'.inodes[d].size == img.inodes[d].size)
      && img'.inodes[i].size == 2 * DIR_ENT_SIZE
      && OneMoreBlock(img, img', i, 0, n) && !HasBlock(img, i, 0)
  {
    hide BlocksOk, NamesOk, DepthOk, DotsOk, SizesOk, RootNamesOk, StrNCpy;
    var after := MakeDir(img, i, parent, n, stack, node);
    forall j
      ensures Allocated(after, j) ==>
                && 0 <= j < BITMAP_SIZE && 0 <= after.inodes[j].blocks <= POINTERS
                && (IsDir(after, j) ==> after.inodes[j].blocks >= 1)
      ensures 0 <= j < BITMAP_COUNT && !Allocated(after, j) ==> after.inodes[j].blocks <= 0
    {
      assert Allocated(img, j) || !Allocated(img, j);
    }
  }

  lemma NewDirFrame(img: Image, img': Image, w: Witness, w': Witness, i: int)
    requires NamingOk(img, w) && w'.namer == w.namer && w'.depth == w.depth
    requires 0 < i < |img'.inodes| && Allocated(img, i) && !IsDir(img, i)
    requires forall j :: Allocated(img', j) <==> Allocated(img, j)
    requires forall j :: IsDir(img', j) <==> IsDir(img, j) || j == i
    requires forall d :: IsDir(img, d) ==> d < |img'.inodes| && img'.inodes[d].size == img.inodes[d].size
    requires img'.inodes[i].size == 2 * DIR_ENT_SIZE
    requires Named(img', Slot(i, 0, 0)) == i && NameAt(img', Slot(i, 0, 0)) == DOT
    requires Named(img', Slot(i, 0, 1)) == ParentOf(w, i) && NameAt(img', Slot(i, 0, 1)) == DOTDOT
    requires ParentOf(w, i) != EMPTY && forall s: Slot :: s.dir == i ==> Named(img, s) == EMPTY
    requires forall s :: s != Slot(i, 0, 0) && s != Slot(i, 0, 1) ==>
               Named(img', s) == Named(img, s) && (Named(img, s) != EMPTY ==> NameAt(img', s) == NameAt(img, s))
    ensures NamingOk(img', w')
  {
    hide Named, NameAt, Allocated, IsDir;
    forall d | IsDir(img', d) && d != i ensures LiveSlots(img', d) == LiveSlots(img, d) {
    }
    assert LiveSlots(img', i) == {Slot(i, 0, 0), Slot(i, 0, 1)};
  }

  lemma MakeDirPlace(img: Image, w: Witness, i: int, parent: int, n: int, node: Inode)
    requires MakeDirOk(img, w, i, parent, n, node)
    ensures ParentOf(w, i) == parent >= 0 && 0 < i < BITMAP_COUNT && |img.inodes| == BITMAP_COUNT
    ensures forall s: Slot :: s.dir == i ==> Named(img, s) == EMPTY
  {
    assert Allocated(img, i) && Named(img, w.namer[i]) == i;
  }

  lemma MakeDirKeeps(img: Image, w: Witness, i: int, parent: int, n: int, stack: Block, node: Inode)
    requires MakeDirOk(img, w, i, parent, n, node)
    ensures Consistent(MakeDir(img, i, parent, n, stack, node), w.(owner := w.owner[n := (i, 0)]))
  {
    hide InodesOk, BlocksOk, NamesOk, DepthOk, DotsOk, SizesOk, RootNamesOk, Named, NameAt, OneMoreBlock, HasBlock,
      MakeDir, DotBlock, IsDir, Allocated;
    MakeDirPlace(img, w, i, parent, n, node);
    MakeDirInodes(img, w, i, parent, n, stack, node);
    var img' := MakeDir(img, i, parent, n, stack, node);
    forall s
      ensures s == Slot(i, 0, 0) ==> Named(img', s) == i && NameAt(img', s) == DOT
      ensures s == Slot(i, 0, 1) ==> Named(img', s) == parent && NameAt(img', s) == DOTDOT
      ensures s != Slot(i, 0, 0) && s != Slot(i, 0, 1) ==>
                Named(img', s) == Named(img, s) && (Named(img, s) != EMPTY ==> NameAt(img', s) == NameAt(img, s))
    {
      MakeDirSlot(img, w, i, parent, n, stack, node, s);
    }
    NewDirFrame(img, img', w, w.(owner := w.owner[n := (i, 0)]), i);
    BlocksFrame(img, img', w, i, 0, n);
  }

  // ----- An object goes -----

  ghost predicate RemoveOk(img: Image, w: Witness, s: Slot, i: int) {
    && Consistent(img, w) && Named(img, s) == i && i != EMPTY && !s.IsDot()
    && (IsDir(img, i) ==> img.inodes[i].size == 2 * DIR_ENT_SIZE)
  }

  lemma RemoveDefined(img: Image, w: Witness, s: Slot, i: int)
    requires RemoveOk(img, w, s, i)
    ensures IsSlot(img, s) && Allocated(img, i) && 0 < i < BITMAP_SIZE && i != s.dir
    ensures 0 <= img.inodes[i].blocks <= POINTERS && Named(img, s) == i && !s.IsDot() && Shape(img)
    ensures 0 <= s.block < POINTERS && 0 <= s.entry < DIR_ENT_COUNT
  {
    NotOwnParent(img, w, s);
  }

  lemma RemoveSlot(img: Image, w: Witness, s: Slot, i: int, t: Slot)
    requires RemoveOk(img, w, s, i) && IsSlot(img, s) && 0 < i < BITMAP_SIZE && i != s.dir
    requires 0 <= img.inodes[i].blocks <= POINTERS
    ensures var img' := RemoveObject(img, s, i);
      if t == s || t.dir == i then Named(img', t) == EMPTY
      else Named(img', t) == Named(img, t) && NameAt(img', t) == NameAt(img, t)
  {
    hide NamesOk, DepthOk, DotsOk, SizesOk, RootNamesOk, CStr, ClearBits;
    BlockFacts(img, w, s.dir, s.block);
    if HasBlock(img, t.dir, t.block) {
      BlockFacts(img, w, t.dir, t.block);
    }
  }

  ghost predicate FewerInodes(img: Image, img': Image, s: Slot, i: int) {
    && (forall j :: Allocated(img', j) <==> Allocated(img, j) && j != i)
    && (forall j :: IsDir(img', j) <==> IsDir(img, j) && j != i)
    && (forall d :: IsDir(img', d) ==>
          && d < |img.inodes| && d < |img'.inodes|
          && img'.inodes[d].size == img.inodes[d].size - if d == s.dir then DIR_ENT_SIZE else 0)
  }

  ghost predicate FewerBlocks(img: Image, img': Image, i: int) {
    && (forall j, c :: HasBlock(img', j, c) <==> HasBlock(img, j, c) && j != i)
    && (forall j, c :: HasBlock(img', j, c) ==> BlockOf(img', j, c) == BlockOf(img, j, c))
  }

  /** Neither slot s nor any slot of directory i names anything now; the others are as before. */
  ghost predicate FewerNames(img: Image, img': Image, s: Slot, i: int) {
    && (forall t :: t == s || t.dir == i ==> Named(img', t) == EMPTY)
    && (forall t :: t != s && t.dir != i ==> Named(img', t) == Named(img, t) && NameAt(img', t) == NameAt(img, t))
  }

  ghost predicate NoChildren(img: Image, i: int) {
    forall t: Slot :: t.dir == i && !t.IsDot() ==> Named(img, t) == EMPTY
  }

  ghost predicate Gone(img: Image, img': Image, s: Slot, i: int) {
    && Named(img, s) == i && 0 < i && !s.IsDot()
    && 0 <= s.block < POINTERS && 0 <= s.entry < DIR_ENT_COUNT && s.dir != i
    && FewerInodes(img, img', s, i) && FewerNames(img, img', s, i) && NoChildren(img, i)
  }

  lemma RemoveInodes(img: Image, w: Witness, s: Slot, i: int)
    requires RemoveOk(img, w, s, i) && IsSlot(img, s) && 0 < i < BITMAP_SIZE && i != s.dir
    requires 0 <= img.inodes[i].blocks <= POINTERS
    ensures var img' := RemoveObject(img, s, i);
      && Shape(img') && InodesOk(img')
      && FewerInodes(img, img', s, i) && FewerBlocks(img, img', i)
  {
    hide BlocksOk, NamesOk, DepthOk, DotsOk, SizesOk, RootNamesOk, NameAt;
    var after := RemoveObject(img, s, i);
    forall j
      ensures Allocated(after, j) ==>
                && 0 <= j < BITMAP_SIZE && 0 <= after.inodes[j].blocks <= POINTERS
                && (IsDir(after, j) ==> after.inodes[j].blocks >= 1)
      ensures 0 <= j < BITMAP_COUNT && !Allocated(after, j) ==> after.inodes[j].blocks <= 0
    {
      assert Allocated(img, j) || !Allocated(img, j);
    }
  }

  lemma FreedBlocks(img: Image, w: Witness, i: int, n: int)
    requires Consistent(img, w) && Allocated(img, i) && 0 <= n < BITMAP_COUNT && img.dataBits[n]
    requires 0 <= img.inodes[i].blocks <= POINTERS
    ensures n in w.owner
    ensures n in img.inodes[i].pointer[..img.inodes[i].blocks] <==> w.owner[n].0 == i
  {
    hide NamesOk, DepthOk, DotsOk, SizesOk, RootNamesOk, Named, NameAt, IsDir, InodesOk;
    var freed := img.inodes[i].pointer[..img.inodes[i].blocks];
    if n in freed {
      var c :| 0 <= c < |freed| && freed[c] == n;
      assert HasBlock(img, i, c) && BlockOf(img, i, c) == n;
    }
    if w.owner[n].0 == i {
      assert freed[w.owner[n].1] == n;
    }
  }

  lemma FreedBits(img: Image, w: Witness, s: Slot, i: int, n: int)
    requires RemoveOk(img, w, s, i) && IsSlot(img, s) && 0 < i < BITMAP_SIZE && i != s.dir
    requires 0 <= img.inodes[i].blocks <= POINTERS
    ensures var bits := RemoveObject(img, s, i).dataBits;
      |bits| == |img.dataBits| &&
      (0 <= n < |bits| ==> (bits[n] <==> img.dataBits[n] && n in w.owner && w.owner[n].0 != i))
  {
    hide InodesOk, BlocksOk, NamesOk, DepthOk, DotsOk, SizesOk, RootNamesOk, Named;
    RemoveDefined(img, w, s, i);
    if 0 <= n < BITMAP_COUNT && img.dataBits[n] {
      FreedBlocks(img, w, i, n);
    }
  }

  lemma FewerBlocksFrame(img: Image, img': Image, w: Witness, i: int)
    requires BlocksOk(img, w)
    requires |img'.dataBits| == |img.dataBits|
    requires forall n :: 0 <= n < |img'.dataBits| ==>
               (img'.dataBits[n] <==> img.dataBits[n] && n in w.owner && w.owner[n].0 != i)
    requires FewerBlocks(img, img', i)
    ensures BlocksOk(img', w)
  {
    hide HasBlock, BlockOf;
  }

  lemma RemoveBlocks(img: Image, w: Witness, s: Slot, i: int)
    requires RemoveOk(img, w, s, i) && IsSlot(img, s) && 0 < i < BITMAP_SIZE && i != s.dir
    requires 0 <= img.inodes[i].blocks <= POINTERS
    ensures BlocksOk(RemoveObject(img, s, i), w)
  {
    hide RemoveObject, IsSlot, FewerInodes, FewerBlocks, InodesOk, BlocksOk, NamesOk, DepthOk, DotsOk, SizesOk,
      RootNamesOk, Named, HasBlock, IsDir, Allocated;
    RemoveInodes(img, w, s, i);
    var img' := RemoveObject(img, s, i);
    FreedBits(img, w, s, i, 0);
    forall n ensures 0 <= n < |img'.dataBits| ==>
                       (img'.dataBits[n] <==> img.dataBits[n] && n in w.owner && w.owner[n].0 != i) {
      FreedBits(img, w, s, i, n);
    }
    FewerBlocksFrame(img, img', w, i);
  }

  lemma GoneSizes(img: Image, img': Image, s: Slot, i: int)
    requires SizesOk(img) && Gone(img, img', s, i)
    ensures SizesOk(img')
  {
    hide Named, NameAt, IsDir, Allocated;
    forall d | IsDir(img', d) && d != s.dir ensures LiveSlots(img', d) == LiveSlots(img, d) {
    }
    InLiveSlots(img, s);
    InLiveSlots(img', s);
    assert LiveSlots(img', s.dir) == LiveSlots(img, s.dir) - {s};
  }

  lemma GoneNames(img: Image, img': Image, w: Witness, s: Slot, i: int)
    requires NamesOk(img, w) && DepthOk(img, w) && Gone(img, img', s, i)
    ensures NamesOk(img', w) && DepthOk(img', w)
  {
    hide Named, NameAt, IsDir, Allocated;
  }

  lemma GoneDots(img: Image, img': Image, w: Witness, s: Slot, i: int)
    requires DotsOk(img, w) && RootNamesOk(img) && Gone(img, img', s, i)
    ensures DotsOk(img', w) && RootNamesOk(img')
  {
    hide Named, NameAt, IsDir, Allocated;
  }

  lemma RemoveLeaf(img: Image, w: Witness, s: Slot, i: int, t: Slot)
    requires RemoveOk(img, w, s, i) && t.dir == i && !t.IsDot()
    ensures Named(img, t) == EMPTY
  {
    if IsDir(img, i) {
      EmptyDirectory(img, w, t);
    }
  }

  lemma RemoveGone(img: Image, w: Witness, s: Slot, i: int)
    requires RemoveOk(img, w, s, i) && IsSlot(img, s) && 0 < i < BITMAP_SIZE && i != s.dir
    requires 0 <= img.inodes[i].blocks <= POINTERS
    ensures Gone(img, RemoveObject(img, s, i), s, i)
  {
    hide RemoveOk, Named, NameAt, IsSlot, FewerInodes, FewerBlocks, InodesOk, RemoveObject, IsDir, Allocated;
    RemoveDefined(img, w, s, i);
    RemoveInodes(img, w, s, i);
    var img' := RemoveObject(img, s, i);
    assert NoChildren(img, i) by {
      forall t: Slot | t.dir == i && !t.IsDot() ensures Named(img, t) == EMPTY {
        RemoveLeaf(img, w, s, i, t);
      }
    }
    assert FewerNames(img, img', s, i) by {
      forall t {
        RemoveSlot(img, w, s, i, t);
      }
    }
  }

  lemma RemoveKeeps(img: Image, w: Witness, s: Slot, i: int)
    requires RemoveOk(img, w, s, i) && IsSlot(img, s) && 0 < i < BITMAP_SIZE && i != s.dir
    requires 0 <= img.inodes[i].blocks <= POINTERS
    ensures Consistent(RemoveObject(img, s, i), w)
  {
    hide InodesOk, BlocksOk, NamesOk, DepthOk, DotsOk, SizesOk, RootNamesOk, Named, NameAt, IsDir, IsSlot, HasBlock,
      Gone, RemoveObject, Allocated, FewerInodes, FewerBlocks;
    RemoveInodes(img, w, s, i);
    RemoveBlocks(img, w, s, i);
    RemoveGone(img, w, s, i);
    var img' := RemoveObject(img, s, i);
    GoneSizes(img, img', s, i);
    GoneNames(img, img', w, s, i);
    GoneDots(img, img', w, s, i);
  }

  // ----- A file block is written -----

  ghost predicate WriteOk(img: Image, w: Witness, i: int, b: int, n: int) {
    && Consistent(img, w) && Allocated(img, i) && !IsDir(img, i)
    && 0 <= b < POINTERS && b <= img.inodes[i].blocks && 0 <= n < BITMAP_COUNT
    && (if b < img.inodes[i].blocks then img.inodes[i].pointer[b] == n else !img.dataBits[n])
  }

  lemma WriteSlot(img: Image, w: Witness, i: int, b: int, n: int, buffer: Block, s: Slot)
    requires WriteOk(img, w, i, b, n)
    ensures var img' := WriteBlock(img, i, b, n, buffer);
            Named(img', s) == Named(img, s) && (Named(img, s) != EMPTY ==> NameAt(img', s) == NameAt(img, s))
  {
    hide NamesOk, DepthOk, DotsOk, SizesOk, RootNamesOk, CStr;
    if HasBlock(img, s.dir, s.block) {
      BlockFacts(img, w, s.dir, s.block);
    }
    if b < img.inodes[i].blocks {
      BlockFacts(img, w, i, b);
    }
  }

  lemma WriteInodes(img: Image, w: Witness, i: int, b: int, n: int, buffer: Block)
    requires WriteOk(img, w, i, b, n)
    ensures var img' := WriteBlock(img, i, b, n, buffer);
      && Shape(img') && InodesOk(img') && SameInodes(img, img') && DirSizesKept(img, img')
      && (if b < img.inodes[i].blocks then BlocksOk(img', w)
          else OneMoreBlock(img, img', i, b, n) && !HasBlock(img, i, b))
  {
    hide NamesOk, DepthOk, DotsOk, SizesOk, RootNamesOk;
    assert i != 0;
    var img' := WriteBlock(img, i, b, n, buffer);
    forall j
      ensures Allocated(img', j) ==>
                && 0 <= j < BITMAP_SIZE && 0 <= img'.inodes[j].blocks <= POINTERS
                && (IsDir(img', j) ==> img'.inodes[j].blocks >= 1)
      ensures 0 <= j < BITMAP_COUNT && !Allocated(img', j) ==> img'.inodes[j].blocks <= 0
    {
      assert Allocated(img, j) || !Allocated(img, j);
    }
    if b < img.inodes[i].blocks {
      SameBlocksFrame(img, img', w, w);
    }
  }

  function WriteWitness(img: Image, w: Witness, i: int, b: int, n: int): Witness
    requires 0 <= i < |img.inodes|
  {
    if b < img.inodes[i].blocks then w else w.(owner := w.owner[n := (i, b)])
  }

  lemma WriteKeeps(img: Image, w: Witness, i: int, b: int, n: int, buffer: Block)
    requires WriteOk(img, w, i, b, n)
    ensures Consistent(WriteBlock(img, i, b, n, buffer), WriteWitness(img, w, i, b, n))
  {
    hide InodesOk, BlocksOk, NamesOk, DepthOk, DotsOk, SizesOk, RootNamesOk, Named, NameAt, IsDir,
      SameInodes, DirSizesKept, OneMoreBlock, HasBlock;
    WriteInodes(img, w, i, b, n, buffer);
    var img' := WriteBlock(img, i, b, n, buffer);
    assert SameNaming(img, img') by {
      forall s {
        WriteSlot(img, w, i, b, n, buffer, s);
      }
    }
    NamingFrame(img, img', w, WriteWitness(img, w, i, b, n));
    if b >= img.inodes[i].blocks {
      BlocksFrame(img, img', w, i, b, n);
    }
  }
}
