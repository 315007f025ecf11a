/** The handlers as they run: regions of the disk image read into buffers, searched, changed and
    written back. */
module FsServer {
  import opened FsImage
  import opened FsConsistency
  import opened FsHandlers
  import opened FsProperties

  predicate ByteFull(bitmap: seq<bool>, offset: nat)
    requires 8 * offset + 8 <= |bitmap|
  {
    forall j :: 8 * offset <= j < 8 * offset + 8 ==> bitmap[j]
  }

  /** Finds the lowest clear bit, byte by byte and then bit by bit, and sets it. */
  method BitmapAlloc(bitmap: seq<bool>) returns (written: seq<bool>, index: int)
    requires |bitmap| == BITMAP_COUNT
    ensures index == (if LowestClear(bitmap) < BITMAP_COUNT then LowestClear(bitmap) else -1)
    ensures written == (if index >= 0 then bitmap[index := true] else bitmap)
  {
    var offset := 0;
    while offset < BITMAP_SIZE && ByteFull(bitmap, offset)
      invariant 0 <= offset <= BITMAP_SIZE
      invariant forall j :: 0 <= j < 8 * offset ==> bitmap[j]
    {
      offset := offset + 1;
    }
    if offset < BITMAP_SIZE {
      var bit := 0;
      while bitmap[8 * offset + bit]
        invariant 0 <= bit < 8
        invariant forall j :: 0 <= j < 8 * offset + bit ==> bitmap[j]
        decreases 8 - bit
      {
        assert exists j :: 8 * offset <= j < 8 * offset + 8 && !bitmap[j];
        bit := bit + 1;
      }
      index := 8 * offset + bit;
      written := bitmap[index := true];
      LowestClearUnique(bitmap, index);
    } else {
      index, written := -1, bitmap;
      LowestClearUnique(bitmap, BITMAP_COUNT);
    }
  }

  /** The bit asked for, but -1 for any index that is no byte index. */
  method BitmapCheck(bitmap: seq<bool>, index: int) returns (result: int)
    requires |bitmap| == BITMAP_COUNT
    ensures result == (if 0 <= index < BITMAP_SIZE then if bitmap[index] then 1 else 0 else -1)
  {
    result := -1;
    if index >= 0 && index < BITMAP_SIZE {
      result := if bitmap[index] then 1 else 0;
    }
  }

  /** The scan both creat and unlink make over one block of entries. */
  method ScanForName(block: Block, name: seq<char>) returns (index: nat)
    ensures index == FindName(block, name)
  {
    index := 0;
    while index < DIR_ENT_COUNT && (block[index].inum == EMPTY || !SameName(block[index].name, name))
      invariant index <= DIR_ENT_COUNT
      invariant forall j :: 0 <= j < index ==> !EntryMatches(block[j], name)
    {
      index := index + 1;
    }
    FindNameUnique(block, name, 0, index);
  }

  /** The scan for an unused entry. */
  method ScanForUnused(block: Block) returns (index: nat)
    ensures index == FirstEmpty(block)
  {
    index := 0;
    while index < DIR_ENT_COUNT && block[index].inum != EMPTY
      invariant index <= DIR_ENT_COUNT
      invariant forall j :: 0 <= j < index ==> block[j].inum != EMPTY
    {
      index := index + 1;
    }
    FirstEmptyUnique(block, 0, index);
  }

  /** Marks every entry of a buffer unused, leaving the names in it. */
  method BlankEntries(block: Block) returns (blank: Block)
    ensures blank == Blank(block)
  {
    var b: seq<DirEnt>, index := block, 0;
    while index < DIR_ENT_COUNT
      invariant 0 <= index <= DIR_ENT_COUNT == |b|
      invariant forall e :: 0 <= e < DIR_ENT_COUNT ==> b[e] == if e < index then Blank(block)[e] else block[e]
    {
      b := b[index := b[index].(inum := EMPTY)];
      index := index + 1;
    }
    blank := b;
  }

  lemma {:induction false} FindNameUnique(b: Block, name: seq<char>, e: nat, r: nat)
    requires e <= r <= DIR_ENT_COUNT
    requires r < DIR_ENT_COUNT ==> EntryMatches(b[r], name)
    requires forall j :: e <= j < r ==> !EntryMatches(b[j], name)
    ensures FindName(b, name, e) == r
    decreases DIR_ENT_COUNT - e
  {
    if e < r {
      FindNameUnique(b, name, e + 1, r);
    }
  }

  lemma {:induction false} FirstEmptyUnique(b: Block, e: nat, r: nat)
    requires e <= r <= DIR_ENT_COUNT
    requires r < DIR_ENT_COUNT ==> b[r].inum == EMPTY
    requires forall j :: e <= j < r ==> b[j].inum != EMPTY
    ensures FirstEmpty(b, e) == r
    decreases DIR_ENT_COUNT - e
  {
    if e < r {
      FirstEmptyUnique(b, e + 1, r);
    }
  }

  class FileServer {
    var inodeBits: seq<bool>
    var dataBits: seq<bool>
    var inodes: seq<Inode>
    var data: seq<Block>

    function Img(): Image
      reads this
    {
      Image(inodeBits, dataBits, inodes, data)
    }

    /** A new image: zeros, then the root directory in inode 0 and data block 0. */
    constructor InitFs(junk: Junk)
      ensures Img() == NewImage(junk.stack, junk.pointers) && Sound(Img())
      ensures forall i :: Allocated(Img(), i) <==> i == 0
      ensures forall s: Slot :: !s.IsDot() ==> Named(Img(), s) == EMPTY
    {
      inodeBits := seq(BITMAP_COUNT, _ => false);
      dataBits := seq(BITMAP_COUNT, _ => false);
      inodes := seq(BITMAP_COUNT, _ => ZeroInode());
      data := seq(BITMAP_COUNT, _ => ZeroBlock());
      new;
      var index;
      LowestClearUnique(inodeBits, 0);
      inodeBits, index := BitmapAlloc(inodeBits);
      LowestClearUnique(dataBits, 0);
      var dnum := WriteDotBlock(0, 0, junk);
      var self := Inode(DIRECTORY, 2 * DIR_ENT_SIZE, 1, junk.pointers[0 := 0]);
      inodes := inodes[0 := self];
      NewImageSound(junk.stack, junk.pointers);
    }

    /** The second half of init_obj: a data block for a new directory. */
    method WriteDotBlock(inum: int, pinum: int, junk: Junk) returns (dnum: int)
      requires Shape(Img()) && LowestClear(dataBits) < BITMAP_COUNT
      modifies this`dataBits, this`data
      ensures dnum == LowestClear(old(dataBits))
      ensures Img() == AddDotBlock(old(Img()), inum, pinum, dnum, junk.stack)
    {
      var block: seq<DirEnt> := junk.stack;
      block := block[0 := DirEnt(inum, StrNCpy(block[0].name, DOT, 2))];
      block := block[1 := DirEnt(pinum, StrNCpy(block[1].name, DOTDOT, 3))];
      var index := 2;
      while index < DIR_ENT_COUNT
        invariant 2 <= index <= DIR_ENT_COUNT == |block|
        invariant forall e :: 0 <= e < DIR_ENT_COUNT ==>
                    block[e] == if e < index then DotBlock(inum, pinum, junk.stack)[e] else junk.stack[e]
      {
        block := block[index := block[index].(inum := EMPTY)];
        index := index + 1;
      }
      assert block == DotBlock(inum, pinum, junk.stack);
      dataBits, dnum := BitmapAlloc(dataBits);
      data := data[dnum := block];
    }

    /** The search of init_obj for an unused entry in the parent; `buffer` is the last block read. */
    method FindFreeEntry(pinum: int, ghost img: Image)
        returns (found: bool, blockIndex: int, entIndex: int, buffer: Block)
      requires img == Img() && Readable(img, pinum)
      ensures var s := FreeSlot(img, pinum);
        && blockIndex == s.block && (found <==> s.block < inodes[pinum].blocks)
        && (found ==> entIndex == s.entry && buffer == data[inodes[pinum].pointer[blockIndex]])
        && (!found ==> buffer == data[inodes[pinum].pointer[inodes[pinum].blocks - 1]])
    {
      hide IsDir, FirstEmpty;
      var parent := inodes[pinum];
      found, blockIndex, entIndex := false, 0, -1;
      buffer := data[parent.pointer[0]];
      while blockIndex < parent.blocks
        invariant 0 <= blockIndex <= parent.blocks
        invariant blockIndex > 0 ==> buffer == data[parent.pointer[blockIndex - 1]]
        invariant FreeSlot(img, pinum) == FreeSlot(img, pinum, blockIndex)
      {
        buffer := data[parent.pointer[blockIndex]];
        entIndex := ScanForUnused(buffer);
        if entIndex < DIR_ENT_COUNT {
          found := true;
          break;
        }
        blockIndex := blockIndex + 1;
      }
    }

    /** The first half of init_obj: an entry in the parent, in a new block if need be. */
    method EnterInParent(inum: int, pinum: int, name: seq<char>)
      requires Readable(Img(), pinum) && RoomInDir(Img(), pinum)
      modifies this`dataBits, this`inodes, this`data
      ensures var (roomy, s) := WithRoom(old(Img()), pinum);
              Shape(roomy) && IsSlot(roomy, s) && Img() == AddEntry(roomy, s, inum, name)
    {
      hide IsDir, FreeSlot, StrNCpy, Blank;
      ghost var (roomy, s) := WithRoom(Img(), pinum);
      var parent := inodes[pinum];
      var found, blockIndex, entIndex, buffer := FindFreeEntry(pinum, Img());
      if !found && parent.blocks < POINTERS {
        var dnum;
        dataBits, dnum := BitmapAlloc(dataBits);
        blockIndex := parent.blocks;
        parent := parent.(pointer := parent.pointer[parent.blocks := dnum], blocks := parent.blocks + 1);
        buffer := BlankEntries(buffer);
        entIndex := 0;
      }
      assert s == Slot(pinum, blockIndex, entIndex) && roomy.inodes[pinum] == parent;
      assert roomy.data[parent.pointer[blockIndex]] == buffer;
      buffer := buffer[entIndex := DirEnt(inum, StrNCpy(buffer[entIndex].name, name, NAME_SIZE))];
      parent := parent.(size := parent.size + DIR_ENT_SIZE);
      data := data[parent.pointer[blockIndex] := buffer];
      inodes := inodes[pinum := parent];
      assert data == AddEntry(roomy, s, inum, name).data;
      assert inodes == AddEntry(roomy, s, inum, name).inodes;
    }

    /** init_obj for a new object: its entry, and its first block when it is a directory. */
    method InitObj(inum: int, pinum: int, kind: int, name: seq<char>, junk: Junk) returns (dnum: int)
      requires 0 <= inum < BITMAP_SIZE && inum != pinum
      requires Readable(Img(), pinum) && RoomInDir(Img(), pinum)
      requires kind == DIRECTORY ==> LowestClear(WithRoom(Img(), pinum).0.dataBits) < BITMAP_COUNT
      modifies this`dataBits, this`inodes, this`data
      ensures Placed(old(Img()), pinum, inum, kind, name, junk, dnum, Img())
    {
      hide WithRoom, AddEntry, Readable, IsDir, RoomInDir, DotBlock;
      EnteredShape(Img(), pinum, inum, name);
      EnterInParent(inum, pinum, name);
      if kind == DIRECTORY {
        dnum := WriteDotBlock(inum, pinum, junk);
      } else {
        dnum := junk.dnum;
      }
    }

    method HandleCreat(pinum: int, kind: int, name: seq<char>, junk: Junk) returns (rc: int)
      requires Shape(Img())
      requires 0 <= pinum < BITMAP_COUNT && (pinum < BITMAP_SIZE ==> Allocated(Img(), pinum)) ==>
                 CreatDomain(Img(), Creat(pinum, kind, name, junk))
      modifies this
      ensures var known := 0 <= pinum < BITMAP_SIZE && Allocated(old(Img()), pinum);
              && rc == (if known then CreatReply(old(Img()), Creat(pinum, kind, name, junk)) else -1)
              && (rc == 0 <==> known && ((exists e :: 0 <= e < DIR_ENT_COUNT && EntryMatches(old(data)[pinum][e], name))
                                         || kind == DIRECTORY || junk.dnum >= 0))
              && Img() == (if known then After(old(Img()), Creat(pinum, kind, name, junk)) else old(Img()))
      ensures forall e ::
                0 <= pinum < BITMAP_SIZE && 0 <= e < DIR_ENT_COUNT && EntryMatches(old(data)[pinum][e], name) ==>
                  Img() == old(Img())
      ensures Sound(old(Img())) ==> Sound(Img())
    {
      SoundAfter(Img(), Creat(pinum, kind, name, junk));
      hide WithRoom, AddEntry, Readable, IsDir, AddDotBlock, RoomInDir, RoomFor, FindName, LowestClear, NewObject,
        NewInode, Sound;
      ghost var was := Img();
      var checked := BitmapCheck(inodeBits, pinum);
      if !(pinum >= 0 && pinum < BITMAP_COUNT && checked != 0) {
        return -1;
      }
      ReadableShape(was, pinum);
      CreatReplyIff(was, Creat(pinum, kind, name, junk));
      SeenIff(was, pinum, name);
      var parentIndex := ScanForName(data[pinum], name);
      if parentIndex == DIR_ENT_COUNT {
        RoomFacts(was, pinum, kind);
        var inum;
        inodeBits, inum := BitmapAlloc(inodeBits);
        BitsIrrelevant(was, pinum, inodeBits);
        var pointer0 := InitObj(inum, pinum, kind, name, junk);
        CreatAssembled(was, pinum, kind, name, junk, inum, pointer0, Img());
        inodes := inodes[inum := NewInode(kind, pointer0, junk)];
        if !(pointer0 > -1) {
          return -1;
        }
      }
      rc := 0;
    }

    /** The type and length test only decides the reply; the writes below it happen regardless. */
    method HandleWrite(inum: int, buffer: Block, block: int) returns (rc: int)
      requires WriteLands(Img(), Write(inum, buffer, block))
      modifies this
      ensures Img() == (if WriteInRange(inum, block) then Written(old(Img()), inum, block, buffer) else old(Img()))
      ensures rc == 0 || rc == -1
      ensures rc == 0 <==>
              && WriteInRange(inum, block)
              && old(inodes)[inum].kind == REGULAR_FILE && block <= old(inodes)[inum].blocks
      ensures Sound(old(Img())) && rc == 0 && Allocated(old(Img()), inum) ==> Sound(Img())
    {
      hide Sound;
      SoundAfter(Img(), Write(inum, buffer, block));
      if !(inum >= 0 && inum < BITMAP_COUNT && block >= 0 && block < POINTERS) {
        return -1;
      }
      var self := inodes[inum];
      rc := if self.kind == REGULAR_FILE && self.blocks >= block then 0 else -1;
      if block == self.blocks {
        var dnum;
        dataBits, dnum := BitmapAlloc(dataBits);
        self := self.(pointer := self.pointer[block := dnum], blocks := self.blocks + 1);
      }
      self := self.(size := self.size + BLOCK_SIZE);
      data := data[self.pointer[block] := buffer];
      inodes := inodes[inum := self];
    }

    method HandleRead(inum: int, block: int) returns (rc: int, output: Block)
      requires Sound(Img())
      ensures rc == 0 || rc == -1
      ensures rc == 0 <==> HasBlock(Img(), inum, block)
                           && (inodes[inum].kind == REGULAR_FILE || inodes[inum].kind == DIRECTORY)
      ensures rc == 0 ==> 0 <= BlockOf(Img(), inum, block) < |data| && output == data[BlockOf(Img(), inum, block)]
    {
      hide BlocksOk, NamesOk, DepthOk, DotsOk, SizesOk, RootNamesOk;
      ghost var w :| Consistent(Img(), w);
      output := data[0];
      var checked := BitmapCheck(inodeBits, inum);
      if !(inum >= 0 && inum < BITMAP_COUNT && block >= 0 && block < POINTERS && checked != 0) {
        return -1, output;
      }
      var node := inodes[inum];
      if !(block < node.blocks) {
        return -1, output;
      }
      assert Allocated(Img(), inum);
      BlockFacts(Img(), w, inum, block);
      if node.kind == REGULAR_FILE || node.kind == DIRECTORY {
        rc, output := 0, data[node.pointer[block]];
      } else {
        rc := -1;
      }
    }

    /** The first live entry of that name in the blocks of inode pinum, `at` being where it is. */
    method HandleLookup(pinum: int, name: seq<char>) returns (rc: int, inum: int, ghost at: Slot)
      requires Sound(Img())
      ensures rc == 0 || rc == -1
      ensures rc == 0 ==>
        && at.dir == pinum && HasBlock(Img(), pinum, at.block) && 0 <= BlockOf(Img(), pinum, at.block) < |data|
        && at.entry == FindName(data[BlockOf(Img(), pinum, at.block)], name) < DIR_ENT_COUNT
        && inum == data[BlockOf(Img(), pinum, at.block)][at.entry].inum
      ensures forall b :: HasBlock(Img(), pinum, b) && (rc == 0 ==> b < at.block) ==>
        && 0 <= BlockOf(Img(), pinum, b) < |data|
        && FindName(data[BlockOf(Img(), pinum, b)], name) == DIR_ENT_COUNT
    {
      hide NamesOk, DepthOk, DotsOk, SizesOk, RootNamesOk, FindName, SameName, CStr, IsDir;
      ghost var w :| Consistent(Img(), w);
      inum, at := EMPTY, Slot(pinum, 0, 0);
      if !(pinum >= 0 && pinum < BITMAP_COUNT) {
        return -1, inum, at;
      }
      var parent := inodes[pinum];
      var blockIndex := 0;
      while blockIndex < parent.blocks
        invariant 0 <= blockIndex
        invariant forall b :: HasBlock(Img(), pinum, b) && b < blockIndex ==>
          && 0 <= BlockOf(Img(), pinum, b) < |data|
          && FindName(data[BlockOf(Img(), pinum, b)], name) == DIR_ENT_COUNT
      {
        assert HasBlock(Img(), pinum, blockIndex);
        BlockFacts(Img(), w, pinum, blockIndex);
        var entry := ScanForName(data[parent.pointer[blockIndex]], name);
        if entry < DIR_ENT_COUNT {
          return 0, data[parent.pointer[blockIndex]][entry].inum, Slot(pinum, blockIndex, entry);
        }
        blockIndex := blockIndex + 1;
      }
      rc := -1;
    }

    method HandleUnlink(pinum: int, name: seq<char>) returns (rc: int)
      requires Sound(Img()) && Shape(Img()) && 0 <= pinum < BITMAP_COUNT && 0 <= inodes[pinum].pointer[0] < BITMAP_COUNT
      requires pinum < 10 && IsDir(Img(), pinum) ==> !DotName(name)
      modifies this
      ensures var known := pinum < 10 && IsDir(old(Img()), pinum);
        && (known ==> UnlinkDomain(old(Img()), Unlink(pinum, name)))
        && Img() == (if known then After(old(Img()), Unlink(pinum, name)) else old(Img()))
        && rc == (if known then UnlinkReply(old(Img()), pinum, name) else -1)
        && rc == (if !known || Refused(old(Img()), pinum, name) then -1 else 0)
      ensures rc != 0 || (forall e :: !FirstOfName(old(Img()), pinum, name, e)) ==> Img() == old(Img())
      ensures rc == 0 ==>
                forall e :: FirstOfName(old(Img()), pinum, name, e) ==> Named(Img(), Slot(pinum, 0, e)) == EMPTY
      ensures Sound(Img())
    {
      ParentReadable(Img(), pinum);
      ghost var was := Img();
      hide Sound, After, UnlinkReply, CStr, Readable, Refused, FirstOfName, Named;
      var parent := inodes[pinum];
      var entries := data[parent.pointer[0]];
      var checked := BitmapCheck(inodeBits, pinum);
      if !(pinum >= 0 && pinum < 10 && checked != 0 && parent.kind == DIRECTORY) {
        return -1;
      }
      UnlinkReplyIff(was, pinum, name);
      RemovableIff(was, pinum, name);
      if !Removable(was, pinum, name) {
        assert After(was, Unlink(pinum, name)) == was by {
          NotRemoved(was, pinum, name);
        }
      }
      forall e {
        UnlinkReplyDone(was, pinum, name, e);
      }
      rc := UnlinkIn(pinum, name, parent, entries);
    }

    /** unlink in a known directory, whose inode and first block have been read. */
    method UnlinkIn(pinum: int, name: seq<char>, directory: Inode, block: Block) returns (rc: int)
      requires Sound(Img()) && UnlinkDomain(Img(), Unlink(pinum, name)) && pinum < 10
      requires directory == inodes[pinum] && block == data[directory.pointer[0]]
      modifies this
      ensures Img() == After(old(Img()), Unlink(pinum, name))
      ensures rc == UnlinkReply(old(Img()), pinum, name) == if Refused(old(Img()), pinum, name) then -1 else 0
      ensures Sound(Img())
    {
      hide Sound, SameName, CStr, FindName, Refused;
      UnlinkReplyIff(Img(), pinum, name);
      AfterKeepsSound(Img(), Unlink(pinum, name));
      ghost var was := Img();
      var parent, entries := directory, block;
      var index := ScanForName(entries, name);
      if index == DIR_ENT_COUNT {
        return 0;
      }
      UnlinkFacts(was, pinum, name);
      var inum := entries[index].inum;
      var self := inodes[inum];
      if !(self.kind == REGULAR_FILE || (self.kind == DIRECTORY && self.size == 2 * DIR_ENT_SIZE)) {
        return -1;
      }
      entries := entries[index := entries[index].(inum := EMPTY)];
      parent := parent.(size := parent.size - DIR_ENT_SIZE);
      inodeBits := inodeBits[inum := false];
      ClearOwnedBits(self);
      inodes := inodes[inum := self.(blocks := -1)];
      inodes := inodes[pinum := parent];
      data := data[parent.pointer[0] := entries];
      rc := 0;
    }

    /** The loop of unlink over the blocks of the inode it removes. */
    method ClearOwnedBits(self: Inode)
      requires |dataBits| == BITMAP_COUNT && 0 <= self.blocks <= POINTERS
      requires forall c :: 0 <= c < self.blocks ==> 0 <= self.pointer[c] < BITMAP_COUNT
      modifies this`dataBits
      ensures dataBits == ClearBits(old(dataBits), self.pointer[..self.blocks])
    {
      var blocks := self.blocks;
      while blocks > 0
        invariant 0 <= blocks <= self.blocks && |dataBits| == BITMAP_COUNT
        invariant forall n :: 0 <= n < BITMAP_COUNT ==>
          (dataBits[n] <==> old(dataBits)[n] && n !in self.pointer[blocks..self.blocks])
      {
        blocks := blocks - 1;
        var dnum := self.pointer[blocks];
        assert self.pointer[blocks..self.blocks] == [dnum] + self.pointer[blocks + 1..self.blocks];
        dataBits := dataBits[dnum := false];
      }
      assert self.pointer[0..self.blocks] == self.pointer[..self.blocks];
    }
  }

  lemma SoundAfter(img: Image, r: Request)
    ensures Sound(img) && InDomain(img, r) ==> Sound(After(img, r))
  {
    hide Sound, After;
    if Sound(img) && InDomain(img, r) {
      AfterKeepsSound(img, r);
    }
  }

  lemma NotRemoved(img: Image, d: int, name: seq<char>)
    requires UnlinkDomain(img, Unlink(d, name)) && !Removable(img, d, name)
    ensures After(img, Unlink(d, name)) == img
  {
  }

  lemma ParentReadable(img: Image, d: int)
    requires Sound(img)
    ensures Shape(img) && (IsDir(img, d) ==> Readable(img, d))
  {
    hide BlocksOk, NamesOk, DepthOk, DotsOk, SizesOk, RootNamesOk;
    var w :| Consistent(img, w);
    if IsDir(img, d) {
      DirReadable(img, w, d);
    }
  }

  lemma UnlinkFacts(img: Image, d: int, name: seq<char>)
    requires Sound(img) && Readable(img, d) && !DotName(name)
    requires UnlinkSlot(img, d, name).entry < DIR_ENT_COUNT
    ensures var s := UnlinkSlot(img, d, name);
      var i := Named(img, s);
      && i == EntryAt(img, s).inum && 0 <= i < BITMAP_COUNT && i != d && 0 <= img.inodes[i].blocks <= POINTERS
      && forall c :: 0 <= c < img.inodes[i].blocks ==> 0 <= img.inodes[i].pointer[c] < BITMAP_COUNT
  {
    hide SizesOk, RootNamesOk, CStr;
    var w :| Consistent(img, w);
    var s := UnlinkSlot(img, d, name);
    UnlinkTarget(img, w, d, name);
    NotOwnParent(img, w, s);
    var i := Named(img, s);
    forall c | 0 <= c < img.inodes[i].blocks ensures 0 <= img.inodes[i].pointer[c] < BITMAP_COUNT {
      assert HasBlock(img, i, c);
    }
  }

  lemma ReadableShape(img: Image, d: int)
    requires Readable(img, d)
    ensures Shape(img) && 0 <= d < BITMAP_SIZE && Allocated(img, d)
  {
  }

  lemma RoomFacts(img: Image, d: int, kind: int)
    requires Readable(img, d) && RoomFor(img, d, kind)
    ensures RoomInDir(img, d) && LowestClear(img.inodeBits) < BITMAP_SIZE && LowestClear(img.inodeBits) != d
    ensures kind == DIRECTORY ==> LowestClear(WithRoom(img, d).0.dataBits) < BITMAP_COUNT
  {
  }

  lemma EnteredShape(img: Image, d: int, i: int, name: seq<char>)
    requires Readable(img, d) && RoomInDir(img, d)
    ensures var (roomy, s) := WithRoom(img, d);
      Shape(AddEntry(roomy, s, i, name)) && AddEntry(roomy, s, i, name).dataBits == roomy.dataBits
  {
  }

  /** Setting one more inode bit changes nothing about the parent and its room. */
  lemma BitsIrrelevant(img: Image, d: int, bits: seq<bool>)
    requires Readable(img, d) && RoomInDir(img, d) && |bits| == BITMAP_COUNT && bits[d]
    ensures var img' := img.(inodeBits := bits);
      && Readable(img', d) && FreeSlot(img', d) == FreeSlot(img, d) && RoomInDir(img', d)
      && WithRoom(img', d) == (WithRoom(img, d).0.(inodeBits := bits), WithRoom(img, d).1)
  {
    SameFreeSlot(img, d, bits, 0);
  }

  lemma {:induction false} SameFreeSlot(img: Image, d: int, bits: seq<bool>, b: nat)
    requires Readable(img, d) && |bits| == BITMAP_COUNT && bits[d] && b <= img.inodes[d].blocks
    ensures FreeSlot(img.(inodeBits := bits), d, b) == FreeSlot(img, d, b)
    decreases img.inodes[d].blocks - b
  {
    hide FirstEmpty;
    if b < img.inodes[d].blocks {
      SameFreeSlot(img, d, bits, b + 1);
    }
  }

  function NewInode(kind: int, dnum: int, junk: Junk): Inode {
    Inode(kind, if kind == DIRECTORY then 2 * DIR_ENT_SIZE else 0, if kind == DIRECTORY then 1 else 0,
          junk.pointers[0 := dnum])
  }

  /** What init_obj leaves behind when it starts from the given image. */
  ghost predicate Placed(img: Image, d: int, i: int, kind: int, name: seq<char>, junk: Junk, dnum: int, img': Image)
    requires Readable(img, d) && RoomInDir(img, d)
  {
    var (roomy, s) := WithRoom(img, d);
    var entered := AddEntry(roomy, s, i, name);
    && Shape(img')
    && if kind == DIRECTORY then
         dnum == LowestClear(roomy.dataBits) < BITMAP_COUNT && img' == AddDotBlock(entered, i, d, dnum, junk.stack)
       else dnum == junk.dnum && img' == entered
  }

  /** What creat wrote, region by region, is the new object's image. */
  lemma CreatAssembled(img: Image, d: int, kind: int, name: seq<char>, junk: Junk, i: int, dnum: int, placed: Image)
    requires Readable(img, d) && RoomFor(img, d, kind) && i == LowestClear(img.inodeBits)
    requires var marked := img.(inodeBits := img.inodeBits[i := true]);
      && Readable(marked, d) && RoomInDir(marked, d)
      && WithRoom(marked, d) == (WithRoom(img, d).0.(inodeBits := marked.inodeBits), WithRoom(img, d).1)
      && Placed(marked, d, i, kind, name, junk, dnum, placed)
    ensures placed.(inodes := placed.inodes[i := NewInode(kind, dnum, junk)]) == NewObject(img, d, kind, name, junk)
  {
    hide Readable, LowestClear, StrNCpy, FreeSlot, Grow, DotBlock;
    RoomFacts(img, d, kind);
  }
}
