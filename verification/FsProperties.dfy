/** What consistency means to a client: the directories form a tree, every set data bit is one
    block of one inode, and the files behave like a map from (inode, block) to contents. */
module FsProperties {
  import opened FsImage
  import opened FsConsistency
  import opened FsHandlers

  // ----- The directory tree -----

  /** Directory d has an entry, other than "." and "..", for inode i. */
  ghost predicate Contains(img: Image, d: int, i: int) {
    i != EMPTY && exists s: Slot :: s.dir == d && !s.IsDot() && Named(img, s) == i
  }

  ghost predicate DirPath(img: Image, path: seq<int>) {
    path != [] && forall k, l :: 0 <= k && l == k + 1 && l < |path| ==> Contains(img, path[k], path[l])
  }

  /** Every allocated inode but the root is named by exactly one entry. */
  lemma NamedExactlyOnce(img: Image, i: int)
    requires Sound(img) && Allocated(img, i) && i != 0
    ensures exists s: Slot :: !s.IsDot() && Named(img, s) == i
    ensures forall s: Slot, t: Slot :: !s.IsDot() && !t.IsDot() && Named(img, s) == i && Named(img, t) == i ==> s == t
  {
    hide Named;
    var w :| Consistent(img, w);
    assert i >= 0;
    assert !w.namer[i].IsDot() && Named(img, w.namer[i]) == i;
  }

  /** No live entry dangles, and the root is nobody's entry. */
  lemma EntriesNameAllocated(img: Image, s: Slot)
    requires Sound(img) && Named(img, s) != EMPTY && !s.IsDot()
    ensures Allocated(img, Named(img, s)) && Named(img, s) != 0
  {
    var w :| Consistent(img, w);
  }

  lemma ContainsDepth(img: Image, w: Witness, d: int, i: int)
    requires Consistent(img, w) && Contains(img, d, i)
    ensures d in w.depth && i in w.depth && w.depth[i] == w.depth[d] + 1 && Allocated(img, i)
  {
    hide Named, BlocksOk, DotsOk, SizesOk, RootNamesOk, InodesOk;
    var s: Slot :| s.dir == d && !s.IsDot() && Named(img, s) == i;
    assert Allocated(img, i) && i != 0;
  }

  lemma {:induction false} DepthAlong(img: Image, w: Witness, path: seq<int>, k: nat)
    requires Consistent(img, w) && DirPath(img, path) && 0 < k < |path|
    ensures path[0] in w.depth && path[k] in w.depth && w.depth[path[k]] == w.depth[path[0]] + k
  {
    hide Consistent, Contains;
    ContainsDepth(img, w, path[k - 1], path[k]);
    if k > 1 {
      DepthAlong(img, w, path, k - 1);
    }
  }

  /** No directory lies below itself. */
  lemma NoCycle(img: Image, path: seq<int>)
    requires Sound(img) && DirPath(img, path) && |path| >= 2
    ensures path[0] != path[|path| - 1]
  {
    hide Consistent;
    var w :| Consistent(img, w);
    DepthAlong(img, w, path, |path| - 1);
  }

  lemma TrivialPath(img: Image)
    ensures DirPath(img, [0])
  {
  }

  lemma ExtendPath(img: Image, path: seq<int>, i: int)
    requires DirPath(img, path) && Contains(img, path[|path| - 1], i)
    ensures DirPath(img, path + [i])
  {
    var longer := path + [i];
    forall k, l | 0 <= k && l == k + 1 && l < |longer| ensures Contains(img, longer[k], longer[l]) {
      assert longer[k] == path[k];
      if l < |path| {
        assert longer[l] == path[l] && Contains(img, path[k], path[l]);
      }
    }
  }

  lemma {:induction false} PathFromRoot(img: Image, w: Witness, i: int) returns (path: seq<int>)
    requires Consistent(img, w) && Allocated(img, i) && i in w.depth
    ensures path != [] && DirPath(img, path) && path[0] == 0 && path[|path| - 1] == i
    decreases w.depth[i]
  {
    hide BlocksOk, DotsOk, SizesOk, RootNamesOk, InodesOk, Named, DirPath;
    if i == 0 {
      TrivialPath(img);
      path := [0];
    } else {
      var s := w.namer[i];
      ParentAllocated(img, w, i);
      var up := PathFromRoot(img, w, s.dir);
      assert Contains(img, s.dir, i);
      ExtendPath(img, up, i);
      path := up + [i];
    }
  }

  lemma ParentAllocated(img: Image, w: Witness, i: int)
    requires Consistent(img, w) && Allocated(img, i) && i != 0
    ensures i in w.namer && Allocated(img, w.namer[i].dir) && i != EMPTY
  {
    assert Named(img, w.namer[i]) == i;
  }

  /** Every allocated inode is reached from the root through directory entries. */
  lemma ReachedFromRoot(img: Image, i: int)
    requires Sound(img) && Allocated(img, i)
    ensures exists path :: DirPath(img, path) && path[0] == 0 && path[|path| - 1] == i
  {
    hide BlocksOk, NamesOk, DotsOk, SizesOk, RootNamesOk, InodesOk;
    var w :| Consistent(img, w);
    var path := PathFromRoot(img, w, i);
  }

  /** unlink's emptiness test is exact: a size of two entries means no entry besides the dots. */
  lemma SizeTellsEmpty(img: Image, d: int)
    requires Sound(img) && IsDir(img, d)
    ensures img.inodes[d].size == 2 * DIR_ENT_SIZE <==> forall i :: !Contains(img, d, i)
  {
    hide Named, IsDir, BlocksOk, NamesOk, DepthOk, RootNamesOk, InodesOk;
    var w :| Consistent(img, w);
    if img.inodes[d].size == 2 * DIR_ENT_SIZE {
      forall s: Slot | s.dir == d && !s.IsDot() ensures Named(img, s) == EMPTY {
        EmptyDirectory(img, w, s);
      }
    } else {
      var dots := {Slot(d, 0, 0), Slot(d, 0, 1)};
      assert LiveSlots(img, d) != dots;
      assert dots <= LiveSlots(img, d);
      var s :| s in LiveSlots(img, d) && s !in dots;
      assert Contains(img, d, Named(img, s));
    }
  }

  /** A new image is consistent, and holds nothing but the root. */
  lemma NewImageSound(stack: Block, pointers: Pointers)
    ensures var img := NewImage(stack, pointers);
      && Sound(img) && (forall i :: Allocated(img, i) <==> i == 0)
      && (forall s: Slot :: !s.IsDot() ==> Named(img, s) == EMPTY)
  {
    hide StrNCpy, CStr;
    var img := NewImage(stack, pointers);
    var w := Witness(map[0 := (0, 0)], map[], map[0 := 0]);
    DotNames(stack[0].name);
    DotNames(stack[1].name);
    assert InodesOk(img) && BlocksOk(img, w);
    assert forall s: Slot :: !s.IsDot() ==> Named(img, s) == EMPTY;
    assert NamesOk(img, w) && DepthOk(img, w);
    assert DotsOk(img, w) && RootNamesOk(img);
    assert LiveSlots(img, 0) == {Slot(0, 0, 0), Slot(0, 0, 1)};
    assert Consistent(img, w);
  }

  // ----- Data blocks -----

  /** A data bit is set exactly when some allocated inode has that block. */
  lemma BitMeansOwned(img: Image, n: nat)
    requires Sound(img) && n < BITMAP_COUNT
    ensures img.dataBits[n] <==> exists i, b :: HasBlock(img, i, b) && BlockOf(img, i, b) == n
  {
    hide NamesOk, DepthOk, DotsOk, SizesOk, RootNamesOk, InodesOk;
    var w :| Consistent(img, w);
    if img.dataBits[n] {
      var (i, b) := w.owner[n];
      assert HasBlock(img, i, b) && BlockOf(img, i, b) == n;
    }
  }

  /** No two blocks of allocated inodes are the same. */
  lemma BlocksNotShared(img: Image, i: int, b: int, j: int, c: int)
    requires Sound(img) && HasBlock(img, i, b) && HasBlock(img, j, c) && (i, b) != (j, c)
    ensures BlockOf(img, i, b) != BlockOf(img, j, c)
  {
    hide NamesOk, DepthOk, DotsOk, SizesOk, RootNamesOk, InodesOk;
    var w :| Consistent(img, w);
    BlockFacts(img, w, i, b);
    BlockFacts(img, w, j, c);
  }

  // ----- What creat and unlink do to the names -----

  lemma RoomNames(img: Image, w: Witness, d: int, t: Slot)
    requires Consistent(img, w) && Readable(img, d) && RoomInDir(img, d)
    ensures var roomy := WithRoom(img, d).0;
            Named(roomy, t) == Named(img, t) && (Named(img, t) != EMPTY ==> NameAt(roomy, t) == NameAt(img, t))
  {
    hide BlocksOk, NamesOk, DepthOk, DotsOk, SizesOk, RootNamesOk, Named, NameAt, Grow;
    var s := FreeSlot(img, d);
    if s.block == img.inodes[d].blocks {
      GrowSlot(img, w, d, LowestClear(img.dataBits), img.data[img.inodes[d].pointer[s.block - 1]], t);
    }
  }

  /** creat takes the lowest free inode, enters it under the given name in one slot of the parent
      that was unused, gives a new directory its two dot entries, and leaves every other slot. */
  lemma CreatNames(img: Image, d: int, kind: int, name: seq<char>, junk: Junk, t: Slot)
    requires Sound(img) && Readable(img, d) && RoomFor(img, d, kind) && !SeenByCreat(img, d, name)
    ensures var after, s, i := NewObject(img, d, kind, name, junk), WithRoom(img, d).1, LowestClear(img.inodeBits);
      && s.dir == d && Named(img, s) == EMPTY && !Allocated(img, i)
      && (if t == s then Named(after, t) == i && NameAt(after, t) == CStr(name)
          else if kind == DIRECTORY && t == Slot(i, 0, 0) then Named(after, t) == i && NameAt(after, t) == DOT
          else if kind == DIRECTORY && t == Slot(i, 0, 1) then Named(after, t) == d && NameAt(after, t) == DOTDOT
          else Named(after, t) == Named(img, t) && (Named(img, t) != EMPTY ==> NameAt(after, t) == NameAt(img, t)))
  {
    hide InodesOk, BlocksOk, NamesOk, DepthOk, DotsOk, SizesOk, RootNamesOk, Named, NameAt, CStr, AddFile, MakeDir;
    var w :| Consistent(img, w);
    var (roomy, s) := WithRoom(img, d);
    var i := LowestClear(img.inodeBits);
    var w1 := RoomKeeps(img, w, d);
    RoomNames(img, w, d, t);
    RoomNames(img, w, d, s);
    forall u | s.dir == 0 && s.block == 0 && RootEntry(roomy, u) ensures NameAt(roomy, u) != CStr(name) {
      RootBlock(img, w, d, s, name, u);
    }
    if kind == DIRECTORY {
      var node := Inode(REGULAR_FILE, 0, 0, junk.pointers);
      var n := LowestClear(roomy.dataBits);
      AddKeeps(roomy, w1, s, i, name, node);
      AddSlot(roomy, w1, s, i, name, node, t);
      var w2 := w1.(namer := w1.namer[i := s], depth := w1.depth[i := w1.depth[s.dir] + 1]);
      var added := AddFile(roomy, s, i, name, node);
      AddedInode(roomy, s, i, name, node);
      MakeDirSlot(added, w2, i, d, n, junk.stack, Inode(DIRECTORY, 2 * DIR_ENT_SIZE, 1, junk.pointers[0 := n]), t);
    } else {
      AddSlot(roomy, w1, s, i, name, Inode(kind, 0, 0, junk.pointers[0 := junk.dnum]), t);
    }
  }

  /** How slot t of the image after an unlink relates to the one before: the slot found and those of
      the object removed are clear, the others as they were. */
  ghost predicate UnlinkedSlot(img: Image, d: int, name: seq<char>, t: Slot)
    requires UnlinkDomain(img, Unlink(d, name))
  {
    var after, s := After(img, Unlink(d, name)), UnlinkSlot(img, d, name);
    var i := Named(img, s);
    && Allocated(img, i) && !Allocated(after, i) && NameAt(img, s) == CStr(name)
    && (if t == s || t.dir == i then Named(after, t) == EMPTY
        else Named(after, t) == Named(img, t) && NameAt(after, t) == NameAt(img, t))
  }

  /** unlink frees the inode of that name and clears no slots but its own. */
  lemma UnlinkNames(img: Image, d: int, name: seq<char>, t: Slot)
    requires Sound(img) && UnlinkDomain(img, Unlink(d, name)) && Removable(img, d, name)
    ensures UnlinkedSlot(img, d, name, t)
  {
    hide InodesOk, BlocksOk, NamesOk, DepthOk, DotsOk, SizesOk, RootNamesOk, Named, NameAt, CStr, IsSlot;
    var w :| Consistent(img, w);
    var s := UnlinkSlot(img, d, name);
    UnlinkTarget(img, w, d, name);
    RemoveDefined(img, w, s, Named(img, s));
    RemoveSlot(img, w, s, Named(img, s), t);
  }

  /** The search that a lookup at the root starts with finds the new inode under its name. */
  ghost predicate FoundAtRoot(img: Image, kind: int, name: seq<char>, junk: Junk)
    requires Readable(img, 0) && RoomFor(img, 0, kind)
  {
    var entries := NewObject(img, 0, kind, name, junk).data[0];
    FindName(entries, name) < DIR_ENT_COUNT && entries[FindName(entries, name)].inum == LowestClear(img.inodeBits)
  }

  /** At the root: once creat has put an entry into the first block, the search that a lookup starts
      with finds that entry and so the new inode. */
  lemma LookupFindsCreated(img: Image, kind: int, name: seq<char>, junk: Junk)
    requires Sound(img) && Readable(img, 0) && RoomFor(img, 0, kind) && !SeenByCreat(img, 0, name) && !DotName(name)
    requires FirstEmpty(img.data[0]) < DIR_ENT_COUNT
    ensures FoundAtRoot(img, kind, name, junk)
  {
    hide BlocksOk, NamesOk, DepthOk, DotsOk, SizesOk, NewObject, RoomFor, CStr, FirstEmpty;
    var after, s, i := NewObject(img, 0, kind, name, junk), WithRoom(img, 0).1, LowestClear(img.inodeBits);
    AfterKeepsSound(img, Creat(0, kind, name, junk));
    CreatNames(img, 0, kind, name, junk, s);
    var w :| Consistent(after, w);
    var v :| Consistent(img, v);
    assert img.inodes[0].pointer[0] == 0 && s.block == 0 && i >= 0;
    assert RootEntry(after, s) && EntryMatches(after.data[0][s.entry], name);
    var t := Slot(0, 0, FindName(after.data[0], name));
    assert RootEntry(after, t) && NameAt(after, t) == CStr(name);
  }

  // ----- What the replies mean -----

  /** Slot s is live and has the name. */
  predicate HasName(img: Image, s: Slot, name: seq<char>) {
    Named(img, s) != EMPTY && NameAt(img, s) == CStr(name)
  }

  /** Entry e is the first one of that name in the first block of directory d. */
  ghost predicate FirstOfName(img: Image, d: int, name: seq<char>, e: int) {
    && 0 <= e < DIR_ENT_COUNT && HasName(img, Slot(d, 0, e), name)
    && forall f :: 0 <= f < e ==> !HasName(img, Slot(d, 0, f), name)
  }

  /** Inode i is neither a regular file nor a directory with nothing in it. */
  ghost predicate Obstinate(img: Image, i: int) {
    !(Allocated(img, i) && img.inodes[i].kind == REGULAR_FILE) && !(IsDir(img, i) && forall j :: !Contains(img, i, j))
  }

  /** The entry that unlink finds in directory d names an inode it does not remove. */
  ghost predicate Refused(img: Image, d: int, name: seq<char>) {
    exists e :: FirstOfName(img, d, name, e) && Obstinate(img, Named(img, Slot(d, 0, e)))
  }

  /** unlink's scan of the block is a search for the first slot of that name. */
  lemma UnlinkFinds(img: Image, w: Witness, d: int, name: seq<char>, e: int)
    requires Consistent(img, w) && Readable(img, d)
    ensures FirstOfName(img, d, name, e) <==> e == UnlinkSlot(img, d, name).entry < DIR_ENT_COUNT
  {
    hide NamesOk, DepthOk, DotsOk, SizesOk, RootNamesOk, CStr, FindName;
    var b := img.data[img.inodes[d].pointer[0]];
    forall f | 0 <= f < DIR_ENT_COUNT ensures HasName(img, Slot(d, 0, f), name) <==> EntryMatches(b[f], name) {
      assert IsSlot(img, Slot(d, 0, f));
    }
    var k := UnlinkSlot(img, d, name).entry;
    assert k < DIR_ENT_COUNT ==> HasName(img, Slot(d, 0, k), name);
  }

  lemma TargetInode(img: Image, w: Witness, d: int, name: seq<char>)
    requires Consistent(img, w) && Readable(img, d) && !DotName(name)
    requires UnlinkSlot(img, d, name).entry < DIR_ENT_COUNT
    ensures var i := Named(img, UnlinkSlot(img, d, name));
      Allocated(img, i) && 0 <= i < BITMAP_COUNT && i != d && 0 <= img.inodes[i].blocks <= POINTERS
  {
    hide BlocksOk, DotsOk, SizesOk, RootNamesOk, CStr, Readable, FindName;
    var s := UnlinkSlot(img, d, name);
    UnlinkTarget(img, w, d, name);
    NotOwnParent(img, w, s);
    AllocatedBlocks(img, Named(img, s));
  }

  lemma AllocatedBlocks(img: Image, i: int)
    requires Shape(img) && InodesOk(img) && Allocated(img, i)
    ensures 0 <= i < BITMAP_COUNT && 0 <= img.inodes[i].blocks <= POINTERS
  {
  }

  /** unlink is refused exactly for an object that is neither a file nor an empty directory. */
  lemma UnlinkReplyIff(img: Image, d: int, name: seq<char>)
    requires Sound(img) && Readable(img, d) && d < 10 && !DotName(name)
    ensures UnlinkReply(img, d, name) == if Refused(img, d, name) then -1 else 0
  {
    hide Consistent, Readable, Obstinate, FirstOfName, FindName, CStr;
    var w :| Consistent(img, w);
    var s := UnlinkSlot(img, d, name);
    forall e ensures FirstOfName(img, d, name, e) <==> e == s.entry < DIR_ENT_COUNT {
      UnlinkFinds(img, w, d, name, e);
    }
    if s.entry < DIR_ENT_COUNT {
      TargetInode(img, w, d, name);
      ObstinateIff(img, Named(img, s));
      assert FirstOfName(img, d, name, s.entry) && s == Slot(d, 0, s.entry);
    }
  }

  lemma ObstinateIff(img: Image, i: int)
    requires Sound(img) && Allocated(img, i)
    ensures Obstinate(img, i) <==>
      && img.inodes[i].kind != REGULAR_FILE
      && !(img.inodes[i].kind == DIRECTORY && img.inodes[i].size == 2 * DIR_ENT_SIZE)
  {
    hide Sound, Contains;
    if IsDir(img, i) {
      SizeTellsEmpty(img, i);
    }
  }

  /** After a reply of 0 the first slot of that name, if there was one, names nothing; after a reply
      of -1 nothing has changed. */
  lemma UnlinkReplyDone(img: Image, d: int, name: seq<char>, e: int)
    requires Sound(img) && Readable(img, d) && d < 10 && !DotName(name)
    ensures var after := After(img, Unlink(d, name));
      && (UnlinkReply(img, d, name) != 0 ==> after == img)
      && (UnlinkReply(img, d, name) == 0 && FirstOfName(img, d, name, e) ==> Named(after, Slot(d, 0, e)) == EMPTY)
  {
    hide Consistent, Readable, FirstOfName, CStr, FindName, RemoveObject, Named;
    var w :| Consistent(img, w);
    UnlinkFinds(img, w, d, name, e);
    var s := UnlinkSlot(img, d, name);
    if Removable(img, d, name) && e == s.entry {
      UnlinkNames(img, d, name, Slot(d, 0, e));
    }
  }

  /** unlink goes through exactly when the first live entry of that name names a regular file or an
      empty directory; that entry is the one it clears. */
  lemma RemovableIff(img: Image, d: int, name: seq<char>)
    requires Sound(img) && Readable(img, d) && d < 10 && !DotName(name)
    ensures Removable(img, d, name) <==>
      exists e :: FirstOfName(img, d, name, e) && !Obstinate(img, Named(img, Slot(d, 0, e)))
    ensures Removable(img, d, name) ==> FirstOfName(img, d, name, UnlinkSlot(img, d, name).entry)
  {
    hide Consistent, Readable, Obstinate, FirstOfName, FindName, CStr;
    var w :| Consistent(img, w);
    var s := UnlinkSlot(img, d, name);
    forall e ensures FirstOfName(img, d, name, e) <==> e == s.entry < DIR_ENT_COUNT {
      UnlinkFinds(img, w, d, name, e);
    }
    if s.entry < DIR_ENT_COUNT {
      TargetInode(img, w, d, name);
      ObstinateIff(img, Named(img, s));
      assert FirstOfName(img, d, name, s.entry) && s == Slot(d, 0, s.entry);
    }
  }

  /** creat looks for a live entry of that name in data block number d. */
  lemma SeenIff(img: Image, d: int, name: seq<char>)
    requires Readable(img, d)
    ensures Shape(img) && 0 <= d < BITMAP_SIZE
    ensures SeenByCreat(img, d, name) <==> exists e :: 0 <= e < DIR_ENT_COUNT && EntryMatches(img.data[d][e], name)
  {
    hide FindName, EntryMatches;
    var k := FindName(img.data[d], name);
    assert k < DIR_ENT_COUNT ==> EntryMatches(img.data[d][k], name);
  }

  /** Requests that find nothing to do, or are refused, leave the image as it is. */
  lemma NothingDone(img: Image, r: Request)
    requires Sound(img) && InDomain(img, r)
    requires r.Creat? ==> exists e :: 0 <= e < DIR_ENT_COUNT && EntryMatches(img.data[r.pinum][e], r.name)
    requires r.Write? ==> !WriteInRange(r.inum, r.block)
    requires r.Unlink? && r.pinum < 10 ==>
               forall e :: FirstOfName(img, r.pinum, r.name, e) ==> Obstinate(img, Named(img, Slot(r.pinum, 0, e)))
    ensures After(img, r) == img
  {
    hide Sound, Readable, EntryMatches, FirstOfName, Obstinate, CStr, FindName, NewObject, RemoveObject, RoomFor;
    if r.Creat? {
      SeenIff(img, r.pinum, r.name);
    } else if r.Unlink? && r.pinum < 10 {
      RemovableIff(img, r.pinum, r.name);
    }
  }

  /** creat replies 0 exactly when the block it searches has a live entry of that name, or the new
      object is a directory, or the unset local is not negative. */
  lemma CreatReplyIff(img: Image, r: Request)
    requires r.Creat? && CreatDomain(img, r)
    ensures Shape(img) && 0 <= r.pinum < BITMAP_SIZE
    ensures CreatReply(img, r) == 0 || CreatReply(img, r) == -1
    ensures CreatReply(img, r) == 0 <==>
      || (exists e :: 0 <= e < DIR_ENT_COUNT && EntryMatches(img.data[r.pinum][e], r.name))
      || r.kind == DIRECTORY
      || r.junk.dnum >= 0
  {
    hide FindName, EntryMatches, RoomFor, DotName;
    var k := FindName(img.data[r.pinum], r.name);
    assert k < DIR_ENT_COUNT ==> EntryMatches(img.data[r.pinum][k], r.name);
  }

  // ----- Kinds -----

  /** The kind of inode j, if it is allocated. */
  function KindOf(img: Image, j: int): Option<int> {
    if Allocated(img, j) then Some(img.inodes[j].kind) else None
  }

  /** What one request does to the kinds: creat allocates the lowest free inode with the kind asked for,
      unlink frees the one it removes, and all others stay. */
  function KindAfter(img: Image, r: Request, j: int): Option<int>
    requires InDomain(img, r)
  {
    match r
    case Creat(d, kind, name, _) =>
      if !SeenByCreat(img, d, name) && j == LowestClear(img.inodeBits) then Some(kind) else KindOf(img, j)
    case Write(_, _, _) => KindOf(img, j)
    case Unlink(d, name) =>
      if Removable(img, d, name) && j == Named(img, UnlinkSlot(img, d, name)) then None else KindOf(img, j)
  }

  lemma KindsFollow(img: Image, r: Request, j: int)
    requires InDomain(img, r)
    ensures KindOf(After(img, r), j) == KindAfter(img, r, j)
  {
    hide Readable, FindName, CStr, LowestClear, FreeSlot, NewObject, RemoveObject, WriteBlock, RoomFor;
    match r {
      case Creat(d, kind, name, junk) =>
        if !SeenByCreat(img, d, name) {
          NewObjectKind(img, d, kind, name, junk, j);
        }
      case Write(i, buffer, b) =>
        if WriteInRange(i, b) {
          WrittenKind(img, i, b, LandsAt(img, i, b), buffer, j);
        }
      case Unlink(d, name) =>
        if Removable(img, d, name) {
          RemovedKind(img, d, name, j);
        }
    }
  }

  lemma NewObjectKind(img: Image, d: int, kind: int, name: seq<char>, junk: Junk, j: int)
    requires Readable(img, d) && RoomFor(img, d, kind)
    ensures KindOf(NewObject(img, d, kind, name, junk), j)
         == if j == LowestClear(img.inodeBits) then Some(kind) else KindOf(img, j)
  {
    hide CStr, LowestClear, FreeSlot, StrNCpy, DotBlock, Blank;
  }

  lemma WrittenKind(img: Image, i: int, b: int, n: int, buffer: Block, j: int)
    requires Shape(img) && WriteInRange(i, b) && 0 <= n < BITMAP_COUNT
    requires b != img.inodes[i].blocks ==> img.inodes[i].pointer[b] == n
    ensures KindOf(WriteBlock(img, i, b, n, buffer), j) == KindOf(img, j)
  {
  }

  lemma RemovedKind(img: Image, d: int, name: seq<char>, j: int)
    requires Readable(img, d) && Removable(img, d, name)
    ensures var s := UnlinkSlot(img, d, name);
      && IsSlot(img, s)
      && KindOf(RemoveObject(img, s, Named(img, s)), j) == if j == Named(img, s) then None else KindOf(img, j)
  {
    hide FindName, ClearBits;
  }

  // ----- Files as a map -----

  datatype Option<T> = None | Some(value: T)

  /** The abstract store: contents of block b of regular file i. */
  function FileBlock(img: Image, i: int, b: int): Option<Block> {
    if HasBlock(img, i, b) && img.inodes[i].kind == REGULAR_FILE && 0 <= BlockOf(img, i, b) < |img.data|
    then Some(img.data[BlockOf(img, i, b)]) else None
  }

  lemma GrowFile(img: Image, w: Witness, d: int, n: int, buffer: Block, j: int, c: int)
    requires GrowOk(img, w, d, n) && Shape(img) && 0 <= d < BITMAP_COUNT && 0 <= img.inodes[d].blocks < POINTERS
    ensures FileBlock(Grow(img, d, n, buffer), j, c) == FileBlock(img, j, c)
  {
    hide NamesOk, DepthOk, DotsOk, SizesOk, RootNamesOk;
    if HasBlock(img, j, c) {
      BlockFacts(img, w, j, c);
    }
  }

  lemma AddFileFile(img: Image, w: Witness, s: Slot, i: int, name: seq<char>, node: Inode, j: int, c: int)
    requires AddOk(img, w, s, i, name, node)
    ensures FileBlock(AddFile(img, s, i, name, node), j, c) == FileBlock(img, j, c)
  {
    hide NamesOk, DepthOk, DotsOk, SizesOk, RootNamesOk, StrNCpy, CStr;
    if HasBlock(img, j, c) {
      BlockFacts(img, w, j, c);
      BlockFacts(img, w, s.dir, s.block);
    }
  }

  lemma MakeDirFile(img: Image, w: Witness, i: int, parent: int, n: int, stack: Block, node: Inode, j: int, c: int)
    requires MakeDirOk(img, w, i, parent, n, node)
    ensures FileBlock(MakeDir(img, i, parent, n, stack, node), j, c) == FileBlock(img, j, c)
  {
    hide NamesOk, DepthOk, DotsOk, SizesOk, RootNamesOk, DotBlock;
    if HasBlock(img, j, c) {
      BlockFacts(img, w, j, c);
    }
  }

  lemma RemoveFile(img: Image, w: Witness, s: Slot, i: int, j: int, c: int)
    requires RemoveOk(img, w, s, i) && IsSlot(img, s) && 0 < i < BITMAP_SIZE && i != s.dir
    requires 0 <= img.inodes[i].blocks <= POINTERS
    ensures FileBlock(RemoveObject(img, s, i), j, c) == if j == i then None else FileBlock(img, j, c)
  {
    hide NamesOk, DepthOk, DotsOk, SizesOk, RootNamesOk, ClearBits;
    if HasBlock(img, j, c) {
      BlockFacts(img, w, j, c);
      BlockFacts(img, w, s.dir, s.block);
    }
  }

  lemma WriteFile(img: Image, w: Witness, i: int, b: int, n: int, buffer: Block, j: int, c: int)
    requires WriteOk(img, w, i, b, n) && img.inodes[i].kind == REGULAR_FILE
    ensures FileBlock(WriteBlock(img, i, b, n, buffer), j, c)
         == if (j, c) == (i, b) then Some(buffer) else FileBlock(img, j, c)
  {
    hide NamesOk, DepthOk, DotsOk, SizesOk, RootNamesOk;
    if HasBlock(img, j, c) {
      BlockFacts(img, w, j, c);
    }
    if HasBlock(img, i, b) {
      BlockFacts(img, w, i, b);
    }
  }

  lemma NewObjectFile(img: Image, d: int, kind: int, name: seq<char>, junk: Junk, j: int, c: int)
    requires Sound(img) && Readable(img, d) && RoomFor(img, d, kind) && !SeenByCreat(img, d, name)
    ensures FileBlock(NewObject(img, d, kind, name, junk), j, c) == FileBlock(img, j, c)
  {
    hide InodesOk, BlocksOk, NamesOk, DepthOk, DotsOk, SizesOk, RootNamesOk, Named, NameAt, CStr, AddFile, MakeDir,
      FileBlock;
    var w :| Consistent(img, w);
    var (roomy, s) := WithRoom(img, d);
    var i := LowestClear(img.inodeBits);
    var w1 := RoomKeeps(img, w, d);
    RoomFile(img, w, d, j, c);
    forall t | s.dir == 0 && s.block == 0 && RootEntry(roomy, t) ensures NameAt(roomy, t) != CStr(name) {
      RootBlock(img, w, d, s, name, t);
    }
    if kind == DIRECTORY {
      var node := Inode(REGULAR_FILE, 0, 0, junk.pointers);
      var n := LowestClear(roomy.dataBits);
      AddKeeps(roomy, w1, s, i, name, node);
      AddFileFile(roomy, w1, s, i, name, node, j, c);
      var w2 := w1.(namer := w1.namer[i := s], depth := w1.depth[i := w1.depth[s.dir] + 1]);
      var added := AddFile(roomy, s, i, name, node);
      AddedInode(roomy, s, i, name, node);
      MakeDirFile(added, w2, i, d, n, junk.stack, Inode(DIRECTORY, 2 * DIR_ENT_SIZE, 1, junk.pointers[0 := n]), j, c);
    } else {
      AddFileFile(roomy, w1, s, i, name, Inode(kind, 0, 0, junk.pointers[0 := junk.dnum]), j, c);
    }
  }

  lemma RoomFile(img: Image, w: Witness, d: int, j: int, c: int)
    requires Consistent(img, w) && Readable(img, d) && RoomInDir(img, d)
    ensures FileBlock(WithRoom(img, d).0, j, c) == FileBlock(img, j, c)
  {
    hide BlocksOk, NamesOk, DepthOk, DotsOk, SizesOk, RootNamesOk, FileBlock, Grow;
    var s := FreeSlot(img, d);
    if s.block == img.inodes[d].blocks {
      GrowFile(img, w, d, LowestClear(img.dataBits), img.data[img.inodes[d].pointer[s.block - 1]], j, c);
    }
  }

  /** What one request does to the abstract store. */
  function StoreAfter(img: Image, r: Request, j: int, c: int): Option<Block>
    requires InDomain(img, r)
  {
    match r
    case Creat(_, _, _, _) => FileBlock(img, j, c)
    case Write(i, buffer, b) =>
      if (j, c) == (i, b) && WriteInRange(i, b) then Some(buffer) else FileBlock(img, j, c)
    case Unlink(d, name) =>
      if Removable(img, d, name) && j == Named(img, UnlinkSlot(img, d, name)) then None else FileBlock(img, j, c)
  }

  /** The image refines the store: each request changes the one block, or drops the one file, it is
      about, whatever blocks and inodes it takes or frees. */
  lemma RefinesStore(img: Image, r: Request, j: int, c: int)
    requires Sound(img) && InDomain(img, r)
    ensures FileBlock(After(img, r), j, c) == StoreAfter(img, r, j, c)
  {
    hide InodesOk, BlocksOk, NamesOk, DepthOk, DotsOk, SizesOk, RootNamesOk, Named, NewObject, RemoveObject, WriteBlock,
      FileBlock;
    match r {
      case Creat(d, kind, name, junk) =>
        if !SeenByCreat(img, d, name) {
          NewObjectFile(img, d, kind, name, junk, j, c);
        }
      case Write(i, buffer, b) =>
        if WriteInRange(i, b) {
          var w :| Consistent(img, w);
          WriteFile(img, w, i, b, LandsAt(img, i, b), buffer, j, c);
        }
      case Unlink(d, name) =>
        if Removable(img, d, name) {
          var w :| Consistent(img, w);
          UnlinkTarget(img, w, d, name);
          var s := UnlinkSlot(img, d, name);
          RemoveDefined(img, w, s, Named(img, s));
          RemoveFile(img, w, s, Named(img, s), j, c);
        }
    }
  }

  /** Request r leaves block b of file i alone. */
  predicate Spares(img: Image, r: Request, i: int, b: int)
    requires InDomain(img, r)
  {
    match r
    case Creat(_, _, _, _) => true
    case Write(j, _, c) => (j, c) != (i, b)
    case Unlink(d, name) => !(Removable(img, d, name) && Named(img, UnlinkSlot(img, d, name)) == i)
  }

  /** A block keeps its contents through any run of requests that write other blocks and remove
      other files, even as inodes and blocks around it are freed and taken again. */
  lemma {:induction false} ContentsLast(imgs: seq<Image>, rs: seq<Request>, i: int, b: int, k: nat)
    requires Trace(imgs, rs) && Sound(imgs[0]) && k < |imgs|
    requires forall m :: 0 <= m < |rs| ==> Spares(imgs[m], rs[m], i, b)
    ensures FileBlock(imgs[k], i, b) == FileBlock(imgs[0], i, b)
  {
    hide After, InDomain, Sound, FileBlock, Spares;
    if k > 0 {
      ContentsLast(imgs, rs, i, b, k - 1);
      RunStaysSound(imgs, rs, k - 1);
      RefinesStore(imgs[k - 1], rs[k - 1], i, b);
      SparedStore(imgs[k - 1], rs[k - 1], i, b);
    }
  }

  lemma SparedStore(img: Image, r: Request, i: int, b: int)
    requires InDomain(img, r) && Spares(img, r, i, b)
    ensures StoreAfter(img, r, i, b) == FileBlock(img, i, b)
  {
    hide FileBlock, Removable, Named, Readable, WriteDomain, CreatDomain;
  }

  /** A read returns the last block written there. */
  lemma ReadsLastWrite(imgs: seq<Image>, rs: seq<Request>, i: int, b: int, buffer: Block)
    requires Trace(imgs, rs) && Sound(imgs[0]) && |rs| >= 1
    requires rs[0] == Write(i, buffer, b) && WriteInRange(i, b)
    requires forall m :: 1 <= m < |rs| ==> Spares(imgs[m], rs[m], i, b)
    ensures FileBlock(imgs[|rs|], i, b) == Some(buffer)
  {
    hide After, Sound, FileBlock, Spares;
    RefinesStore(imgs[0], rs[0], i, b);
    AfterKeepsSound(imgs[0], rs[0]);
    assert imgs[1] == After(imgs[0], rs[0]);
    assert Trace(imgs[1..], rs[1..]) by {
      hide InDomain;
      forall k | 0 <= k < |rs[1..]|
        ensures InDomain(imgs[1..][k], rs[1..][k]) && imgs[1..][k + 1] == After(imgs[1..][k], rs[1..][k]) {
        assert imgs[1..][k] == imgs[k + 1] && rs[1..][k] == rs[k + 1];
      }
    }
    ContentsLast(imgs[1..], rs[1..], i, b, |rs| - 1);
  }
}
