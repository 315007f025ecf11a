/** Short runs of the file server from a new image in which a guard is too weak: writes that destroy
    the root or leak a block, and a creat that, repeated, makes two files of one name. */
module FsExamples {
  import opened FsImage
  import opened FsConsistency
  import opened FsHandlers
  import opened FsProperties
  import opened FsRetry
  import opened FsServer
  import opened FsWrites

  // ----- Writes -----

  /** The type test does not save the root. */
  lemma RootOverwritten(stack: Block, pointers: Pointers, buffer: Block)
    ensures var img := NewImage(stack, pointers);
      WriteLands(img, Write(0, buffer, 0)) && Sound(img) && !Sound(Written(img, 0, 0, buffer))
  {
    hide Consistent, Written, LowestClear, DotBlock;
    var img := NewImage(stack, pointers);
    NewImageSound(stack, pointers);
    WriteSoundIff(img, 0, 0, buffer);
  }

  /** A write to an inode that was never allocated takes a block and loses it. */
  lemma BlockLeaked(stack: Block, pointers: Pointers, i: int, buffer: Block)
    requires 0 < i < BITMAP_COUNT
    ensures var img := NewImage(stack, pointers);
      WriteLands(img, Write(i, buffer, 0)) && Sound(img) && !Sound(Written(img, i, 0, buffer))
  {
    hide Consistent, Written, DotBlock, LowestClear;
    var img := NewImage(stack, pointers);
    NewImageSound(stack, pointers);
    LowestClearUnique(img.dataBits, 1);
    assert !Allocated(img, i);
    WriteSoundIff(img, i, 0, buffer);
  }

  // ----- A few objects at the root -----

  /** Inodes 0..n and data blocks 0..m are taken, and the root's one block has entries of these names. */
  ghost predicate Stage(img: Image, n: nat, m: nat, names: seq<seq<char>>) {
    && Shape(img) && IsDir(img, 0) && img.inodes[0].blocks == 1 && img.inodes[0].pointer[0] == 0
    && (forall i :: 0 <= i < BITMAP_COUNT ==> (img.inodeBits[i] <==> i < n))
    && (forall i :: 0 <= i < BITMAP_COUNT ==> (img.dataBits[i] <==> i < m))
    && forall e :: 0 <= e < DIR_ENT_COUNT ==>
         if e < |names| then img.data[0][e].inum != EMPTY && CStr(img.data[0][e].name) == names[e]
         else img.data[0][e].inum == EMPTY
  }

  lemma StageStart(stack: Block, pointers: Pointers)
    ensures Stage(NewImage(stack, pointers), 1, 1, [DOT, DOTDOT])
  {
    hide CStr, StrNCpy;
    DotNames(stack[0].name);
    DotNames(stack[1].name);
  }

  /** What creat finds at such a stage. */
  lemma StageFinds(img: Image, n: nat, m: nat, names: seq<seq<char>>, name: seq<char>)
    requires Stage(img, n, m, names) && n < BITMAP_SIZE && m < BITMAP_COUNT && 2 <= |names| < DIR_ENT_COUNT
    requires CStr(name) !in names
    ensures Readable(img, 0) && RoomInDir(img, 0) && !SeenByCreat(img, 0, name)
    ensures LowestClear(img.inodeBits) == n && LowestClear(img.dataBits) == m
    ensures WithRoom(img, 0) == (img, Slot(0, 0, |names|))
  {
    hide CStr, LowestClear, FindName, FirstEmpty;
    LowestClearUnique(img.inodeBits, n);
    LowestClearUnique(img.dataBits, m);
    FirstEmptyUnique(img.data[0], 0, |names|);
    FindNameUnique(img.data[0], name, 0, DIR_ENT_COUNT);
  }

  /** The next file. */
  lemma StageFile(img: Image, n: nat, m: nat, names: seq<seq<char>>, name: seq<char>, junk: Junk)
    requires Stage(img, n, m, names) && 1 <= n < BITMAP_SIZE && m < BITMAP_COUNT && 2 <= |names| < DIR_ENT_COUNT
    requires CStr(name) !in names && !DotName(name)
    ensures var r := Creat(0, REGULAR_FILE, name, junk);
      && CreatDomain(img, r) && Stage(After(img, r), n + 1, m, names + [CStr(name)])
      && After(img, r).inodes[n] == Inode(REGULAR_FILE, 0, 0, junk.pointers[0 := junk.dnum])
      && forall k :: 1 <= k < BITMAP_COUNT ==> After(img, r).data[k] == img.data[k]
  {
    hide CStr, LowestClear, StrNCpy, SeenByCreat, WithRoom, RoomInDir, Readable;
    StageFinds(img, n, m, names, name);
    CopiedName(img.data[0][|names|].name, name);
  }

  /** The next directory. */
  lemma StageDirectory(img: Image, n: nat, m: nat, names: seq<seq<char>>, name: seq<char>, junk: Junk)
    requires Stage(img, n, m, names) && 1 <= n < BITMAP_SIZE && 1 <= m < BITMAP_COUNT && 2 <= |names| < DIR_ENT_COUNT
    requires CStr(name) !in names && !DotName(name)
    ensures var r := Creat(0, DIRECTORY, name, junk);
      && CreatDomain(img, r) && Stage(After(img, r), n + 1, m + 1, names + [CStr(name)])
      && After(img, r).inodes[n] == Inode(DIRECTORY, 2 * DIR_ENT_SIZE, 1, junk.pointers[0 := m])
      && After(img, r).data[m] == DotBlock(n, 0, junk.stack)
      && forall k :: 1 <= k < BITMAP_COUNT && k != m ==> After(img, r).data[k] == img.data[k]
  {
    hide CStr, LowestClear, StrNCpy, SeenByCreat, WithRoom, RoomInDir, Readable, DotBlock;
    StageFinds(img, n, m, names, name);
    CopiedName(img.data[0][|names|].name, name);
  }

  // ----- A stray write -----

  const A: seq<char> := "a"
  const F: seq<char> := "f"
  const X: seq<char> := "x"

  lemma ShortNames()
    ensures CStr(A) == A && CStr(F) == F && CStr(X) == X && CStr([]) == []
    ensures A !in [DOT, DOTDOT, F] && F !in [DOT, DOTDOT] && X !in [DOT, DOTDOT]
  {
    CStrOfPadded(A, [], NAME_SIZE);
    CStrOfPadded(F, [], NAME_SIZE);
    CStrOfPadded(X, [], NAME_SIZE);
    assert A + [] == A && F + [] == F && X + [] == X;
  }

  function FirstFile(junk: Junk): Request {
    Creat(0, REGULAR_FILE, F, junk)
  }

  /** A new file is written beyond its end: its block pointers are whatever was on the stack, and where
      the one followed is 0 the root directory is wiped out, although the reply is -1. */
  lemma RootWipedOut(junk: Junk, b: int)
    requires 1 <= b < POINTERS && junk.pointers[b] == 0
    ensures var img := NewImage(junk.stack, junk.pointers);
      && Sound(img) && CreatDomain(img, FirstFile(junk)) && Sound(After(img, FirstFile(junk)))
      && WriteLands(After(img, FirstFile(junk)), Write(1, Blank(ZeroBlock()), b))
      && After(img, FirstFile(junk)).inodes[1].blocks < b
      && !Sound(Written(After(img, FirstFile(junk)), 1, b, Blank(ZeroBlock())))
  {
    hide Consistent, Written, LowestClear, DotBlock, CStr, After, CreatDomain;
    var img, r := NewImage(junk.stack, junk.pointers), FirstFile(junk);
    NewImageSound(junk.stack, junk.pointers);
    StageStart(junk.stack, junk.pointers);
    ShortNames();
    StageFile(img, 1, 1, [DOT, DOTDOT], F, junk);
    AfterKeepsSound(img, r);
    var once, blank := After(img, r), Blank(ZeroBlock());
    assert IsDir(once, 0) && HasBlock(once, 0, 0) && BlockOf(once, 0, 0) == 0;
    assert !EntriesKept(once.data[0], blank, 0, 0) by {
      assert blank[0].inum == EMPTY != once.data[0][0].inum;
    }
    WriteSoundIff(once, 1, b, blank);
  }

  // ----- A repeated creat -----

  function Scenario(junks: seq<Junk>): seq<Request>
    requires |junks| == 4
  {
    [Creat(0, REGULAR_FILE, F, junks[0]), Creat(0, DIRECTORY, A, junks[1]),
     Creat(2, REGULAR_FILE, X, junks[2]), Creat(2, REGULAR_FILE, X, junks[3])]
  }

  /** Directory 2 in data block 1, its first k entries used, while data block 2 has never been written. */
  ghost predicate InTwo(img: Image, k: nat) {
    && Shape(img) && IsDir(img, 2) && img.inodes[2].blocks == 1 && img.inodes[2].pointer[0] == 1
    && (forall i :: 0 <= i < BITMAP_COUNT ==> (img.inodeBits[i] <==> i < k + 1))
    && (forall e :: 0 <= e < DIR_ENT_COUNT ==> (img.data[1][e].inum == EMPTY <==> e >= k))
    && img.data[2] == ZeroBlock()
  }

  lemma InTwoFinds(img: Image, k: nat)
    requires InTwo(img, k) && 2 <= k < DIR_ENT_COUNT
    ensures Readable(img, 2) && RoomInDir(img, 2) && !SeenByCreat(img, 2, X)
    ensures LowestClear(img.inodeBits) == k + 1 && WithRoom(img, 2) == (img, Slot(2, 0, k))
    ensures !PlacedInSearchedBlock(img, 2)
  {
    hide CStr, LowestClear, FindName, FirstEmpty;
    ShortNames();
    LowestClearUnique(img.inodeBits, k + 1);
    FirstEmptyUnique(img.data[1], 0, k);
    FindNameUnique(img.data[2], X, 0, DIR_ENT_COUNT);
  }

  lemma InTwoFile(img: Image, k: nat, junk: Junk)
    requires InTwo(img, k) && 2 <= k < DIR_ENT_COUNT
    ensures var r := Creat(2, REGULAR_FILE, X, junk); CreatDomain(img, r) && InTwo(After(img, r), k + 1)
  {
    hide CStr, LowestClear, StrNCpy, SeenByCreat, WithRoom, RoomInDir, Readable, PlacedInSearchedBlock;
    ShortNames();
    InTwoFinds(img, k);
  }

  lemma InTwoStart(img: Image, junk: Junk)
    requires Stage(img, 3, 2, [DOT, DOTDOT, F, A])
    requires img.inodes[2] == Inode(DIRECTORY, 2 * DIR_ENT_SIZE, 1, junk.pointers[0 := 1])
    requires img.data[1] == DotBlock(2, 0, junk.stack) && img.data[2] == ZeroBlock()
    ensures InTwo(img, 2)
  {
    hide CStr, StrNCpy;
  }

  /** Below another directory than the root a repeated creat is not recognised: here the directory is
      inode 2 with data block 1, and creat searches data block 2. */
  lemma TwoOfAName(stack: Block, pointers: Pointers, junks: seq<Junk>) returns (imgs: seq<Image>)
    requires |junks| == 4
    ensures imgs != [] && imgs[0] == NewImage(stack, pointers) && Trace(imgs, Scenario(junks)) && Sound(imgs[0])
    ensures Twice(imgs[4], 2, X)
  {
    hide Consistent, After, CreatDomain, Stage, InTwo, NewImage, CStr, SeenByCreat, PlacedInSearchedBlock, Twice, Sound;
    var rs := Scenario(junks);
    var i0 := NewImage(stack, pointers);
    NewImageSound(stack, pointers);
    StageStart(stack, pointers);
    ShortNames();
    StageFile(i0, 1, 1, [DOT, DOTDOT], F, junks[0]);
    var i1 := After(i0, rs[0]);
    assert [DOT, DOTDOT] + [CStr(F)] == [DOT, DOTDOT, F];
    StageDirectory(i1, 2, 1, [DOT, DOTDOT, F], A, junks[1]);
    var i2 := After(i1, rs[1]);
    assert [DOT, DOTDOT, F] + [CStr(A)] == [DOT, DOTDOT, F, A];
    NewBlocks(stack, pointers);
    InTwoStart(i2, junks[1]);
    InTwoFinds(i2, 2);
    InTwoFile(i2, 2, junks[2]);
    var i3 := After(i2, rs[2]);
    InTwoFile(i3, 3, junks[3]);
    var i4 := After(i3, rs[3]);
    AfterKeepsSound(i0, rs[0]);
    AfterKeepsSound(i1, rs[1]);
    SameDomain(i3, rs[2], junks[3]);
    CreatDuplicates(i2, rs[2], junks[3]);
    imgs := [i0, i1, i2, i3, i4];
  }

  lemma NewBlocks(stack: Block, pointers: Pointers)
    ensures |NewImage(stack, pointers).data| == BITMAP_COUNT && NewImage(stack, pointers).data[2] == ZeroBlock()
  {
  }

  /** What is on the stack decides nothing about the domain. */
  lemma SameDomain(img: Image, r: Request, junk: Junk)
    requires r.Creat?
    ensures CreatDomain(img, r) <==> CreatDomain(img, r.(junk := junk))
  {
    hide Readable, SeenByCreat, RoomFor, CStr;
  }
}
