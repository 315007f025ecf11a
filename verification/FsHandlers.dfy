/** The requests the file server answers, as changes of the image, and what every run of them keeps. */
module FsHandlers {
  import opened FsImage
  import opened FsConsistency

  /** Stack memory that the handlers write out without having set it: the buffer of a new
      directory block, what init_obj returns for a regular file, and the pointers of a new inode. */
  datatype Junk = Junk(stack: Block, dnum: int, pointers: Pointers)

  datatype Request =
    | Creat(pinum: int, kind: int, name: seq<char>, junk: Junk)
    | Write(inum: int, buffer: Block, block: int)
    | Unlink(pinum: int, name: seq<char>)

  /** All blocks of directory d can be read. */
  predicate Readable(img: Image, d: int) {
    && Shape(img) && 0 <= d < BITMAP_SIZE && IsDir(img, d)
    && 1 <= img.inodes[d].blocks <= POINTERS
    && forall c :: 0 <= c < img.inodes[d].blocks ==> 0 <= img.inodes[d].pointer[c] < BITMAP_COUNT
  }

  lemma DirReadable(img: Image, w: Witness, d: int)
    requires Consistent(img, w) && IsDir(img, d)
    ensures Readable(img, d)
  {
    forall c | 0 <= c < img.inodes[d].blocks ensures 0 <= img.inodes[d].pointer[c] < BITMAP_COUNT {
      assert HasBlock(img, d, c);
      BlockFacts(img, w, d, c);
    }
  }

  // ----- creat -----

  /** The directory with room for one more entry, and that entry. */
  function WithRoom(img: Image, d: int): (r: (Image, Slot))
    requires Readable(img, d) && RoomInDir(img, d)
    ensures Shape(r.0) && IsSlot(r.0, r.1) && r.1.dir == d && r.0.inodeBits == img.inodeBits
  {
    var s := FreeSlot(img, d);
    var blocks := img.inodes[d].blocks;
    if s.block < blocks then (img, s)
    else (Grow(img, d, LowestClear(img.dataBits), img.data[img.inodes[d].pointer[blocks - 1]]), Slot(d, blocks, 0))
  }

  predicate RoomInDir(img: Image, d: int)
    requires Readable(img, d)
  {
    FreeSlot(img, d).block < img.inodes[d].blocks
    || (img.inodes[d].blocks < POINTERS && LowestClear(img.dataBits) < BITMAP_COUNT)
  }

  /** There is a free inode below 512, room in the directory, and a data block for a directory. */
  predicate RoomFor(img: Image, d: int, kind: int)
    requires Readable(img, d)
  {
    && LowestClear(img.inodeBits) < BITMAP_SIZE
    && RoomInDir(img, d)
    && (kind == DIRECTORY ==> LowestClear(WithRoom(img, d).0.dataBits) < BITMAP_COUNT)
  }

  /** Where creat looks for an existing entry: in data block number pinum. */
  predicate SeenByCreat(img: Image, pinum: int, name: seq<char>)
    requires Readable(img, pinum)
  {
    FindName(img.data[pinum], name) < DIR_ENT_COUNT
  }

  function NewObject(img: Image, d: int, kind: int, name: seq<char>, junk: Junk): Image
    requires Readable(img, d) && RoomFor(img, d, kind)
  {
    var i := LowestClear(img.inodeBits);
    var (roomy, s) := WithRoom(img, d);
    assert i != d;
    if kind == DIRECTORY then
      var n := LowestClear(roomy.dataBits);
      MakeDir(AddFile(roomy, s, i, name, Inode(REGULAR_FILE, 0, 0, junk.pointers)), i, d, n, junk.stack,
              Inode(DIRECTORY, 2 * DIR_ENT_SIZE, 1, junk.pointers[0 := n]))
    else
      AddFile(roomy, s, i, name, Inode(kind, 0, 0, junk.pointers[0 := junk.dnum]))
  }

  predicate DotName(name: seq<char>) {
    CStr(name) == DOT || CStr(name) == DOTDOT
  }

  predicate CreatDomain(img: Image, r: Request)
    requires r.Creat?
  {
    && Readable(img, r.pinum) && !DotName(r.name)
    && (!SeenByCreat(img, r.pinum, r.name) ==> RoomFor(img, r.pinum, r.kind))
  }

  /** The reply. For a new object that is no directory it depends on a local init_obj has not set. */
  function CreatReply(img: Image, r: Request): int
    requires r.Creat? && CreatDomain(img, r)
  {
    if SeenByCreat(img, r.pinum, r.name) || r.kind == DIRECTORY || r.junk.dnum > -1 then 0 else -1
  }

  // ----- write -----

  predicate WriteInRange(i: int, b: int) {
    0 <= i < BITMAP_COUNT && 0 <= b < POINTERS
  }

  /** The data block that a write to block b of inode i goes to. */
  function LandsAt(img: Image, i: int, b: int): int
    requires Shape(img) && WriteInRange(i, b)
  {
    if b == img.inodes[i].blocks then LowestClear(img.dataBits) else img.inodes[i].pointer[b]
  }

  /** There is such a data block: the pointer followed is the number of one, or one is free. */
  predicate WriteLands(img: Image, r: Request)
    requires r.Write?
  {
    Shape(img) && (WriteInRange(r.inum, r.block) ==> 0 <= LandsAt(img, r.inum, r.block) < BITMAP_COUNT)
  }

  /** The write goes to an existing block of an allocated inode, or to the next one. */
  predicate WriteInReach(img: Image, r: Request)
    requires r.Write?
  {
    && WriteLands(img, r)
    && (WriteInRange(r.inum, r.block) ==> Allocated(img, r.inum) && r.block <= img.inodes[r.inum].blocks)
  }

  predicate WriteDomain(img: Image, r: Request)
    requires r.Write?
  {
    WriteInReach(img, r) && (WriteInRange(r.inum, r.block) ==> img.inodes[r.inum].kind == REGULAR_FILE)
  }

  function Written(img: Image, i: int, b: int, buffer: Block): Image
    requires WriteLands(img, Write(i, buffer, b)) && WriteInRange(i, b)
  {
    WriteBlock(img, i, b, LandsAt(img, i, b), buffer)
  }

  // ----- unlink -----

  predicate UnlinkDomain(img: Image, r: Request)
    requires r.Unlink?
  {
    Readable(img, r.pinum) && !DotName(r.name)
  }

  /** The entry unlink removes, entry 16 when there is none of that name. */
  function UnlinkSlot(img: Image, d: int, name: seq<char>): Slot
    requires Readable(img, d)
  {
    Slot(d, 0, FindName(img.data[img.inodes[d].pointer[0]], name))
  }

  /** unlink goes through: the object is a file, or a directory without entries of its own. */
  predicate Removable(img: Image, d: int, name: seq<char>)
    requires Readable(img, d)
  {
    var s := UnlinkSlot(img, d, name);
    d < 10 && s.entry < DIR_ENT_COUNT &&
    var i := Named(img, s);
    0 <= i < BITMAP_COUNT && i != d && 0 <= img.inodes[i].blocks <= POINTERS
    && (img.inodes[i].kind == REGULAR_FILE
        || (img.inodes[i].kind == DIRECTORY && img.inodes[i].size == 2 * DIR_ENT_SIZE))
  }

  function UnlinkReply(img: Image, d: int, name: seq<char>): int
    requires Readable(img, d)
  {
    if d < 10 && (UnlinkSlot(img, d, name).entry == DIR_ENT_COUNT || Removable(img, d, name)) then 0 else -1
  }

  // ----- One request, whole runs -----

  predicate InDomain(img: Image, r: Request) {
    match r
    case Creat(_, _, _, _) => CreatDomain(img, r)
    case Write(_, _, _) => WriteDomain(img, r)
    case Unlink(_, _) => UnlinkDomain(img, r)
  }

  function After(img: Image, r: Request): Image
    requires InDomain(img, r)
  {
    match r
    case Creat(d, kind, name, junk) => if SeenByCreat(img, d, name) then img else NewObject(img, d, kind, name, junk)
    case Write(i, buffer, b) => if WriteInRange(i, b) then Written(img, i, b, buffer) else img
    case Unlink(d, name) =>
      if Removable(img, d, name) then
        var s := UnlinkSlot(img, d, name);
        RemoveObject(img, s, Named(img, s))
      else img
  }

  ghost predicate Sound(img: Image) {
    exists w :: Consistent(img, w)
  }

  /** The images between the requests of a run. */
  ghost predicate Trace(imgs: seq<Image>, rs: seq<Request>) {
    && |imgs| == |rs| + 1
    && forall k :: 0 <= k < |rs| ==> InDomain(imgs[k], rs[k]) && imgs[k + 1] == After(imgs[k], rs[k])
  }

  // ----- Every request keeps the image consistent -----

  lemma RoomKeeps(img: Image, w: Witness, d: int) returns (w': Witness)
    requires Consistent(img, w) && Readable(img, d) && RoomInDir(img, d)
    ensures var (roomy, s) := WithRoom(img, d);
      && Consistent(roomy, w') && IsSlot(roomy, s) && Named(roomy, s) == EMPTY && IsDir(roomy, d)
      && s.dir == d && w'.namer == w.namer && w'.depth == w.depth
  {
    hide NamesOk, DepthOk, DotsOk, SizesOk, RootNamesOk;
    w' := w;
    var s := FreeSlot(img, d);
    if s.block == img.inodes[d].blocks {
      var n := LowestClear(img.dataBits);
      var buffer := img.data[img.inodes[d].pointer[s.block - 1]];
      GrowKeeps(img, w, d, n, buffer);
      w' := w.(owner := w.owner[n := (d, img.inodes[d].blocks)]);
    }
  }

  lemma RootBlock(img: Image, w: Witness, d: int, s: Slot, name: seq<char>, t: Slot)
    requires Consistent(img, w) && Readable(img, d) && RoomInDir(img, d) && !SeenByCreat(img, d, name)
    requires WithRoom(img, d).1 == s && s.dir == 0 && s.block == 0 && RootEntry(WithRoom(img, d).0, t)
    ensures NameAt(WithRoom(img, d).0, t) != CStr(name)
  {
    hide BlocksOk, NamesOk, DepthOk, DotsOk, SizesOk, RootNamesOk, CStr;
    assert FreeSlot(img, d).block < img.inodes[d].blocks;
    assert img.inodes[0].pointer[0] == 0;
    assert !EntryMatches(img.data[0][t.entry], name);
  }

  lemma NewObjectKeeps(img: Image, w: Witness, d: int, kind: int, name: seq<char>, junk: Junk) returns (w': Witness)
    requires Consistent(img, w) && Readable(img, d) && RoomFor(img, d, kind) && !SeenByCreat(img, d, name)
    ensures Consistent(NewObject(img, d, kind, name, junk), w')
  {
    hide InodesOk, BlocksOk, NamesOk, DepthOk, DotsOk, SizesOk, RootNamesOk, Named, NameAt, CStr, AddFile, MakeDir;
    var (roomy, s) := WithRoom(img, d);
    var i := LowestClear(img.inodeBits);
    var w1 := RoomKeeps(img, w, d);
    forall t | s.dir == 0 && s.block == 0 && RootEntry(roomy, t) ensures NameAt(roomy, t) != CStr(name) {
      RootBlock(img, w, d, s, name, t);
    }
    if kind == DIRECTORY {
      var node := Inode(REGULAR_FILE, 0, 0, junk.pointers);
      var n := LowestClear(roomy.dataBits);
      AddKeeps(roomy, w1, s, i, name, node);
      var w2 := w1.(namer := w1.namer[i := s], depth := w1.depth[i := w1.depth[s.dir] + 1]);
      var added := AddFile(roomy, s, i, name, node);
      AddedInode(roomy, s, i, name, node);
      MakeDirKeeps(added, w2, i, d, n, junk.stack, Inode(DIRECTORY, 2 * DIR_ENT_SIZE, 1, junk.pointers[0 := n]));
      w' := w2.(owner := w2.owner[n := (i, 0)]);
    } else {
      var node := Inode(kind, 0, 0, junk.pointers[0 := junk.dnum]);
      AddKeeps(roomy, w1, s, i, name, node);
      w' := w1.(namer := w1.namer[i := s], depth := w1.depth[i := w1.depth[s.dir] + 1]);
    }
  }

  lemma AddedInode(img: Image, s: Slot, i: int, name: seq<char>, node: Inode)
    requires Shape(img) && IsSlot(img, s) && 0 <= i < BITMAP_COUNT && i != s.dir && node.kind != DIRECTORY
    ensures var img' := AddFile(img, s, i, name, node);
      Shape(img') && Allocated(img', i) && !IsDir(img', i) && img'.inodes[i] == node && img'.dataBits == img.dataBits
  {
    hide StrNCpy;
  }

  lemma WriteStays(img: Image, w: Witness, i: int, b: int, buffer: Block) returns (w': Witness)
    requires Consistent(img, w) && WriteInReach(img, Write(i, buffer, b)) && WriteInRange(i, b)
    requires img.inodes[i].kind != DIRECTORY
    ensures Consistent(Written(img, i, b, buffer), w')
  {
    hide BlocksOk, NamesOk, DepthOk, DotsOk, SizesOk, RootNamesOk;
    var n := LandsAt(img, i, b);
    WriteKeeps(img, w, i, b, n, buffer);
    w' := WriteWitness(img, w, i, b, n);
  }

  /** The entry found is no dot entry, since its name is none of theirs. */
  lemma UnlinkTarget(img: Image, w: Witness, d: int, name: seq<char>)
    requires Consistent(img, w) && Readable(img, d) && !DotName(name)
    requires UnlinkSlot(img, d, name).entry < DIR_ENT_COUNT
    ensures var s := UnlinkSlot(img, d, name);
      IsSlot(img, s) && Named(img, s) != EMPTY && !s.IsDot() && NameAt(img, s) == CStr(name)
  {
    hide BlocksOk, NamesOk, DepthOk, SizesOk, RootNamesOk, CStr;
    var s := UnlinkSlot(img, d, name);
    assert IsSlot(img, s);
    assert Named(img, s) == EntryAt(img, s).inum;
    assert NameAt(img, s) == CStr(name);
    assert NameAt(img, Slot(d, 0, 0)) == DOT && NameAt(img, Slot(d, 0, 1)) == DOTDOT;
  }

  lemma UnlinkStays(img: Image, w: Witness, d: int, name: seq<char>)
    requires Consistent(img, w) && Readable(img, d) && !DotName(name) && Removable(img, d, name)
    ensures var s := UnlinkSlot(img, d, name);
      IsSlot(img, s) && Consistent(RemoveObject(img, s, Named(img, s)), w)
  {
    hide InodesOk, BlocksOk, NamesOk, DepthOk, DotsOk, SizesOk, RootNamesOk, CStr, RemoveObject;
    var s := UnlinkSlot(img, d, name);
    UnlinkTarget(img, w, d, name);
    RemoveDefined(img, w, s, Named(img, s));
    RemoveKeeps(img, w, s, Named(img, s));
  }

  lemma AfterKeepsSound(img: Image, r: Request)
    requires Sound(img) && InDomain(img, r)
    ensures Sound(After(img, r))
  {
    hide Consistent, Removable, NewObject, Written, RemoveObject;
    var w :| Consistent(img, w);
    match r {
      case Creat(d, kind, name, junk) =>
        if !SeenByCreat(img, d, name) {
          var w' := NewObjectKeeps(img, w, d, kind, name, junk);
        }
      case Write(i, buffer, b) =>
        if WriteInRange(i, b) {
          var w' := WriteStays(img, w, i, b, buffer);
        }
      case Unlink(d, name) =>
        if Removable(img, d, name) {
          UnlinkStays(img, w, d, name);
        }
    }
  }

  lemma {:induction false} RunStaysSound(imgs: seq<Image>, rs: seq<Request>, k: nat)
    requires Trace(imgs, rs) && Sound(imgs[0]) && k < |imgs|
    ensures Sound(imgs[k])
  {
    hide After, InDomain, Sound;
    if k > 0 {
      RunStaysSound(imgs, rs, k - 1);
      AfterKeepsSound(imgs[k - 1], rs[k - 1]);
    }
  }
}
