/** Clients resend a request until it is answered, so the server may carry one out many times.
    What a repetition changes. */
module FsRetry {
  import opened Basics
  import opened FsImage
  import opened FsConsistency
  import opened FsHandlers
  import opened FsProperties

  // ----- write -----

  /** The images differ at most in the size of inode i. */
  ghost predicate SameButSize(a: Image, b: Image, i: int) {
    0 <= i < |a.inodes| && exists n :: b == a.(inodes := a.inodes[i := a.inodes[i].(size := n)])
  }

  lemma WriteAgain(img: Image, r: Request)
    requires r.Write? && Sound(img) && WriteDomain(img, r) && WriteInRange(r.inum, r.block)
    ensures WriteDomain(After(img, r), r) && SameButSize(After(img, r), After(After(img, r), r), r.inum)
  {
    hide Sound;
    var once := After(img, r);
    var twice := After(once, r);
    var i := r.inum;
    assert twice == once.(inodes := once.inodes[i := once.inodes[i].(size := twice.inodes[i].size)]);
  }

  lemma WriteAgainFrom(a: Image, b: Image, r: Request)
    requires r.Write? && WriteInRange(r.inum, r.block)
    requires WriteDomain(a, r) && r.block < a.inodes[r.inum].blocks && SameButSize(a, After(a, r), r.inum)
    requires SameButSize(a, b, r.inum) && WriteDomain(b, r)
    ensures SameButSize(a, After(b, r), r.inum)
  {
    var i := r.inum;
    var c := After(b, r);
    assert b.data == a.data && After(a, r).data == a.data;
    assert c == a.(inodes := a.inodes[i := a.inodes[i].(size := c.inodes[i].size)]);
  }

  /** However often a write is carried out, everything but the file's size is as after the first time. */
  lemma {:induction false} WriteRepeated(imgs: seq<Image>, r: Request, k: nat)
    requires |imgs| >= 2 && Trace(imgs, seq(|imgs| - 1, _ => r)) && Sound(imgs[0]) && 1 <= k < |imgs|
    requires r.Write? && WriteInRange(r.inum, r.block)
    ensures SameButSize(imgs[1], imgs[k], r.inum)
  {
    hide Sound;
    var rs := seq(|imgs| - 1, _ => r);
    assert rs[0] == r && imgs[0 + 1] == After(imgs[0], r);
    if k == 1 {
      var once := imgs[1];
      assert once == once.(inodes := once.inodes[r.inum := once.inodes[r.inum].(size := once.inodes[r.inum].size)]);
    } else {
      WriteRepeated(imgs, r, k - 1);
      WriteAgain(imgs[0], r);
      assert rs[k - 1] == r && imgs[k - 1 + 1] == After(imgs[k - 1], r);
      WriteAgainFrom(imgs[1], imgs[k - 1], r);
    }
  }

  // ----- unlink -----

  lemma RootUnlinkable(img: Image, name: seq<char>)
    requires Sound(img) && !DotName(name)
    ensures UnlinkDomain(img, Unlink(0, name))
  {
    hide BlocksOk, NamesOk, DepthOk, DotsOk, SizesOk, RootNamesOk, Readable, CStr;
    var w :| Consistent(img, w);
    DirReadable(img, w, 0);
  }

  /** At the root, where no name occurs twice in the first block, a second unlink finds nothing. */
  lemma UnlinkAgain(img: Image, name: seq<char>)
    requires Sound(img) && UnlinkDomain(img, Unlink(0, name))
    ensures var r := Unlink(0, name);
      && UnlinkDomain(After(img, r), r)
      && After(After(img, r), r) == After(img, r)
      && UnlinkReply(After(img, r), 0, name) == UnlinkReply(img, 0, name)
  {
    hide NamesOk, DepthOk, DotsOk, SizesOk, BlocksOk, CStr;
    AfterKeepsSound(img, Unlink(0, name));
    RootUnlinkable(After(img, Unlink(0, name)), name);
    if Removable(img, 0, name) {
      var w :| Consistent(img, w);
      var s := UnlinkSlot(img, 0, name);
      UnlinkTarget(img, w, 0, name);
      RemoveDefined(img, w, s, Named(img, s));
      NameGone(img, s, name);
    }
  }

  lemma NameGone(img: Image, s: Slot, name: seq<char>)
    requires Shape(img) && RootNamesOk(img) && RootEntry(img, s) && NameAt(img, s) == CStr(name)
    requires 0 < Named(img, s) < BITMAP_COUNT && 0 <= img.inodes[Named(img, s)].blocks <= POINTERS
    ensures var n := BlockOf(img, 0, 0);
            FindName(RemoveObject(img, s, Named(img, s)).data[n], name) == DIR_ENT_COUNT
  {
    hide CStr, FindName;
    var n := BlockOf(img, 0, 0);
    var after := RemoveObject(img, s, Named(img, s)).data[n];
    forall e | 0 <= e < DIR_ENT_COUNT ensures !EntryMatches(after[e], name) {
      if e != s.entry && img.data[n][e].inum != EMPTY {
        var t := Slot(0, 0, e);
        assert RootEntry(img, t) && NameAt(img, t) == CStr(img.data[n][e].name);
      }
    }
  }

  lemma {:induction false} SteadyAfterFirst(imgs: seq<Image>, rs: seq<Request>, k: nat)
    requires Trace(imgs, rs) && 1 <= k < |imgs|
    requires forall m :: 1 <= m < |rs| && InDomain(imgs[1], rs[m]) ==> After(imgs[1], rs[m]) == imgs[1]
    ensures imgs[k] == imgs[1]
  {
    hide InDomain, After;
    if k > 1 {
      SteadyAfterFirst(imgs, rs, k - 1);
      assert imgs[k - 1 + 1] == After(imgs[k - 1], rs[k - 1]);
    }
  }

  /** However often an unlink at the root is carried out, it leaves what it left the first time and
      gets the same reply. */
  lemma UnlinkRepeated(imgs: seq<Image>, name: seq<char>, k: nat)
    requires |imgs| >= 2 && Trace(imgs, seq(|imgs| - 1, _ => Unlink(0, name))) && Sound(imgs[0]) && 1 <= k < |imgs|
    ensures imgs[k] == imgs[1]
    ensures UnlinkDomain(imgs[0], Unlink(0, name)) && UnlinkDomain(imgs[k], Unlink(0, name))
    ensures UnlinkReply(imgs[k], 0, name) == UnlinkReply(imgs[0], 0, name)
  {
    hide Sound, After, UnlinkDomain;
    var r := Unlink(0, name);
    assert seq(|imgs| - 1, _ => r)[0] == r && imgs[0 + 1] == After(imgs[0], r);
    UnlinkAgain(imgs[0], name);
    SteadyAfterFirst(imgs, seq(|imgs| - 1, _ => r), k);
  }

  // ----- creat -----

  /** The slot a new object gets lies in the very block that creat searches for duplicates. */
  predicate PlacedInSearchedBlock(img: Image, d: int)
    requires Readable(img, d) && RoomInDir(img, d)
  {
    var (roomy, s) := WithRoom(img, d);
    BlockOf(roomy, s.dir, s.block) == d
  }

  lemma SeenAfterCreat(img: Image, w: Witness, d: int, kind: int, name: seq<char>, junk: Junk)
    requires Consistent(img, w) && Readable(img, d) && RoomFor(img, d, kind) && !SeenByCreat(img, d, name)
    requires !DotName(name) && Readable(NewObject(img, d, kind, name, junk), d)
    ensures SeenByCreat(NewObject(img, d, kind, name, junk), d, name) <==> PlacedInSearchedBlock(img, d)
  {
    hide NamesOk, DepthOk, SizesOk, RootNamesOk, CStr, StrNCpy, InodesOk, BlocksOk, DotsOk, LowestClear, FindName;
    var i := LowestClear(img.inodeBits);
    var (roomy, s) := WithRoom(img, d);
    var m := BlockOf(roomy, s.dir, s.block);
    var after := NewObject(img, d, kind, name, junk);
    CopiedName(EntryAt(roomy, s).name, name);
    DotNames(junk.stack[0].name);
    DotNames(junk.stack[1].name);
    RoomBits(img, w, d);
    if m == d {
      assert EntryMatches(after.data[d][s.entry], name);
    } else if kind == DIRECTORY && LowestClear(roomy.dataBits) == d {
      assert after.data[d] == DotBlock(i, d, junk.stack);
      assert forall e :: 0 <= e < DIR_ENT_COUNT ==> !EntryMatches(after.data[d][e], name);
    } else {
      assert after.data[d] == img.data[d];
    }
  }

  lemma RoomBits(img: Image, w: Witness, d: int)
    requires Consistent(img, w) && Readable(img, d) && RoomInDir(img, d)
    ensures var (roomy, s) := WithRoom(img, d);
      && 0 <= BlockOf(roomy, s.dir, s.block) < BITMAP_COUNT && roomy.dataBits[BlockOf(roomy, s.dir, s.block)]
      && forall n :: 0 <= n < BITMAP_COUNT && n != BlockOf(roomy, s.dir, s.block) ==> roomy.data[n] == img.data[n]
  {
    hide NamesOk, DepthOk, SizesOk, RootNamesOk, DotsOk, InodesOk;
    var s := FreeSlot(img, d);
    if s.block < img.inodes[d].blocks {
      BlockFacts(img, w, d, s.block);
    }
  }

  /** Carrying out a creat twice, whatever is on the stack each time, is the same as once exactly
      when the second one finds the name: because it was there from the start, or because the entry
      went into data block number d. */
  lemma CreatAgain(img: Image, r: Request, junk: Junk)
    requires r.Creat? && Sound(img) && CreatDomain(img, r) && CreatDomain(After(img, r), r)
    ensures After(After(img, r), r.(junk := junk)) == After(img, r)
       <==> SeenByCreat(img, r.pinum, r.name) || PlacedInSearchedBlock(img, r.pinum)
  {
    hide Consistent, SeenByCreat, PlacedInSearchedBlock, NewObject, Readable, RoomFor;
    if !SeenByCreat(img, r.pinum, r.name) {
      var w :| Consistent(img, w);
      SeenAfterCreat(img, w, r.pinum, r.kind, r.name, r.junk);
      var once := After(img, r);
      if !SeenByCreat(once, r.pinum, r.name) {
        TakesInode(once, r.pinum, r.kind, r.name, junk);
      }
    }
  }

  /** Two slots of directory d have the name, and name different inodes. */
  ghost predicate Twice(img: Image, d: int, name: seq<char>) {
    exists s: Slot, t: Slot :: Duplicates(img, d, name, s, t)
  }

  predicate Duplicates(img: Image, d: int, name: seq<char>, s: Slot, t: Slot) {
    && s != t && s.dir == t.dir == d && NameAt(img, s) == NameAt(img, t) == CStr(name)
    && Named(img, s) != EMPTY && Named(img, t) != EMPTY && Named(img, s) != Named(img, t)
  }

  /** When the condition fails, the second creat makes a second object of the same name beside the
      first one. */
  lemma CreatDuplicates(img: Image, r: Request, junk: Junk)
    requires r.Creat? && Sound(img) && CreatDomain(img, r) && CreatDomain(After(img, r), r)
    requires !SeenByCreat(img, r.pinum, r.name) && !PlacedInSearchedBlock(img, r.pinum)
    ensures Twice(After(After(img, r), r.(junk := junk)), r.pinum, r.name)
  {
    hide Consistent, SeenByCreat, PlacedInSearchedBlock, NewObject, Readable, Named, NameAt, CStr, Sound, WithRoom,
      RoomInDir, LowestClear;
    var d, once, twice := r.pinum, After(img, r), After(After(img, r), r.(junk := junk));
    assert Sound(img) && !SeenByCreat(once, d, r.name) by {
      SeenNotPlaced(img, r);
    }
    AfterKeepsSound(img, r);
    var s, t := WithRoom(img, d).1, WithRoom(once, d).1;
    var i, j := LowestClear(img.inodeBits), LowestClear(once.inodeBits);
    CreatNames(img, d, r.kind, r.name, r.junk, s);
    CreatNames(once, d, r.kind, r.name, junk, t);
    CreatNames(once, d, r.kind, r.name, junk, s);
    NewInodeTaken(img, d, r.kind, r.name, r.junk);
    ParentTaken(once, d);
    assert Duplicates(twice, d, r.name, s, t);
  }

  lemma SeenNotPlaced(img: Image, r: Request)
    requires r.Creat? && Sound(img) && CreatDomain(img, r) && CreatDomain(After(img, r), r)
    requires !SeenByCreat(img, r.pinum, r.name) && !PlacedInSearchedBlock(img, r.pinum)
    ensures !SeenByCreat(After(img, r), r.pinum, r.name)
  {
    hide Consistent, SeenByCreat, PlacedInSearchedBlock, NewObject, Readable, RoomFor;
    var w :| Consistent(img, w);
    SeenAfterCreat(img, w, r.pinum, r.kind, r.name, r.junk);
  }

  lemma NewInodeTaken(img: Image, d: int, kind: int, name: seq<char>, junk: Junk)
    requires Readable(img, d) && RoomFor(img, d, kind)
    ensures Allocated(NewObject(img, d, kind, name, junk), LowestClear(img.inodeBits))
  {
    hide LowestClear;
  }

  lemma ParentTaken(img: Image, d: int)
    requires Readable(img, d)
    ensures Allocated(img, d)
  {
  }

  lemma TakesInode(img: Image, d: int, kind: int, name: seq<char>, junk: Junk)
    requires Readable(img, d) && RoomFor(img, d, kind)
    ensures NewObject(img, d, kind, name, junk).inodeBits != img.inodeBits
  {
    var i := LowestClear(img.inodeBits);
    assert !img.inodeBits[i] && NewObject(img, d, kind, name, junk).inodeBits[i];
  }

  /** At the root the searched block is the first block of entries, so a repeated creat does nothing
      exactly when the name was in it or it had an unused entry. */
  lemma CreatAgainAtRoot(img: Image, r: Request, junk: Junk)
    requires r.Creat? && r.pinum == 0 && Sound(img) && CreatDomain(img, r) && CreatDomain(After(img, r), r)
    ensures After(After(img, r), r.(junk := junk)) == After(img, r)
       <==> SeenByCreat(img, 0, r.name) || FirstEmpty(img.data[0]) < DIR_ENT_COUNT
  {
    hide BlocksOk, NamesOk, DepthOk, SizesOk, RootNamesOk, DotsOk, NewObject, SeenByCreat, After;
    CreatAgain(img, r, junk);
    if !SeenByCreat(img, 0, r.name) {
      var w :| Consistent(img, w);
      RootPlacement(img, w);
    }
  }

  /** rs repeats the request r, with anything on the server's stack each time. */
  ghost predicate Repeats(rs: seq<Request>, r: Request) {
    && r.Creat? && rs != [] && rs[0] == r
    && forall m :: 0 <= m < |rs| ==> rs[m].Creat? && rs[m] == r.(junk := rs[m].junk)
  }

  /** A creat at the root that is answered with 0 because the name is there. */
  ghost predicate FoundAgain(img: Image, r: Request) {
    && r.Creat? && CreatDomain(img, r) && CreatReply(img, r) == 0
    && Shape(img) && exists e :: 0 <= e < DIR_ENT_COUNT && EntryMatches(img.data[0][e], r.name)
  }

  /** A creat at the root whose entry goes into the first block, or was there already, leaves after
      any number of repetitions what it left the first time, and every repetition finds the name and
      is answered with 0. */
  lemma CreatRepeated(imgs: seq<Image>, rs: seq<Request>, r: Request, k: nat)
    requires Repeats(rs, r) && Trace(imgs, rs) && Sound(imgs[0]) && 1 <= k < |imgs|
    requires r.pinum == 0 && CreatDomain(imgs[0], r)
    requires SeenByCreat(imgs[0], 0, r.name) || FirstEmpty(imgs[0].data[0]) < DIR_ENT_COUNT
    ensures imgs[k] == imgs[1]
    ensures k < |rs| ==> FoundAgain(imgs[k], rs[k])
  {
    hide Sound, After, FirstEmpty, Readable, RoomFor, SeenByCreat;
    assert imgs[0 + 1] == After(imgs[0], rs[0]);
    forall m | 1 <= m < |rs| && InDomain(imgs[1], rs[m]) ensures After(imgs[1], rs[m]) == imgs[1] {
      CreatAgainAtRoot(imgs[0], r, rs[m].junk);
    }
    SteadyAfterFirst(imgs, rs, k);
    if k < |rs| {
      assert InDomain(imgs[k], rs[k]);
      SeenAtRootAgain(imgs[0], r);
      SeenIff(imgs[k], 0, r.name);
    }
  }

  lemma SeenAtRootAgain(img: Image, r: Request)
    requires r.Creat? && r.pinum == 0 && Sound(img) && CreatDomain(img, r) && Readable(After(img, r), 0)
    requires SeenByCreat(img, 0, r.name) || FirstEmpty(img.data[0]) < DIR_ENT_COUNT
    ensures SeenByCreat(After(img, r), 0, r.name)
  {
    hide Consistent, NewObject, SeenByCreat, Readable, RoomInDir, FirstEmpty, LowestClear;
    if !SeenByCreat(img, 0, r.name) {
      var w :| Consistent(img, w);
      SeenAfterCreat(img, w, 0, r.kind, r.name, r.junk);
      RootPlacement(img, w);
    }
  }

  lemma RootPlacement(img: Image, w: Witness)
    requires Consistent(img, w) && Readable(img, 0) && RoomInDir(img, 0)
    ensures PlacedInSearchedBlock(img, 0) <==> FirstEmpty(img.data[0]) < DIR_ENT_COUNT
  {
    hide NamesOk, DepthOk, SizesOk, RootNamesOk, DotsOk;
    var s := FreeSlot(img, 0);
    BlockFacts(img, w, 0, 0);
    assert BlockOf(img, 0, 0) == 0;
    if s.block < img.inodes[0].blocks {
      BlockFacts(img, w, 0, s.block);
    }
  }
}
