/** The disk image of the file server: four regions, and the changes the handlers make to them. */
module FsImage {
  const BITMAP_SIZE: nat := 512       // bytes in a bitmap
  const BITMAP_COUNT: nat := 4096     // bits in a bitmap, inodes, data blocks
  const DIR_ENT_COUNT: nat := 16      // BLOCK_SIZE / sizeof(MFS_DirEnt_t)
  const DIR_ENT_SIZE: nat := 256
  const BLOCK_SIZE: nat := 4096
  const NAME_SIZE: nat := 252
  const POINTERS: nat := 10
  const DIRECTORY: int := 0
  const REGULAR_FILE: int := 1
  const EMPTY: int := -1              // inum of an unused directory entry

  // ----- Names as C strings -----

  /** What strncmp sees of a buffer: everything up to a NUL, at most n characters. */
  function CStr(s: seq<char>, n: nat := NAME_SIZE): (r: seq<char>)
    ensures |r| <= n && '\0' !in r
  {
    if n == 0 || s == [] || s[0] == '\0' then [] else [s[0]] + CStr(s[1..], n - 1)
  }

  /** strncpy(dst, src, n). */
  function StrNCpy(dst: seq<char>, src: seq<char>, n: nat): seq<char> {
    var copied := CStr(src, n);
    copied + seq(n - |copied|, _ => '\0') + (if n <= |dst| then dst[n..] else [])
  }

  predicate SameName(field: seq<char>, name: seq<char>) {
    CStr(field) == CStr(name)
  }

  lemma {:induction false} CStrOfPadded(s: seq<char>, rest: seq<char>, n: nat)
    requires '\0' !in s && |s| <= n && (|s| < n ==> rest == [] || rest[0] == '\0')
    ensures CStr(s + rest, n) == s
    decreases n
  {
    if s == [] {
      assert s + rest == rest;
    } else {
      assert (s + rest)[1..] == s[1..] + rest;
      CStrOfPadded(s[1..], rest, n - 1);
    }
  }

  /** A name copied into an entry compares equal to exactly the names it was copied from. */
  lemma CopiedName(dst: seq<char>, name: seq<char>)
    ensures CStr(StrNCpy(dst, name, NAME_SIZE)) == CStr(name)
  {
    var copied := CStr(name);
    var pad := seq(NAME_SIZE - |copied|, _ => '\0');
    var rest := pad + if NAME_SIZE <= |dst| then dst[NAME_SIZE..] else [];
    assert StrNCpy(dst, name, NAME_SIZE) == copied + rest;
    CStrOfPadded(copied, rest, NAME_SIZE);
  }

  const DOT: seq<char> := "."
  const DOTDOT: seq<char> := ".."

  lemma DotNames(dst: seq<char>)
    ensures CStr(StrNCpy(dst, DOT, 2)) == DOT && CStr(StrNCpy(dst, DOTDOT, 3)) == DOTDOT
  {
    assert CStr(DOT, 2) == DOT && CStr(DOTDOT, 3) == DOTDOT;
    var a := seq(1, _ => '\0') + (if 2 <= |dst| then dst[2..] else []);
    var b := seq(1, _ => '\0') + (if 3 <= |dst| then dst[3..] else []);
    assert StrNCpy(dst, DOT, 2) == DOT + a && StrNCpy(dst, DOTDOT, 3) == DOTDOT + b;
    CStrOfPadded(DOT, a, NAME_SIZE);
    CStrOfPadded(DOTDOT, b, NAME_SIZE);
  }

  // ----- The four regions -----

  datatype DirEnt = DirEnt(inum: int, name: seq<char>)

  /** Any block, of a file or a directory, read as its sixteen entries. */
  type Block = b: seq<DirEnt> | |b| == DIR_ENT_COUNT witness seq(DIR_ENT_COUNT, _ => DirEnt(EMPTY, []))
  type Pointers = p: seq<int> | |p| == POINTERS witness seq(POINTERS, _ => 0)

  datatype Inode = Inode(kind: int, size: int, blocks: int, pointer: Pointers)

  datatype Image = Image(inodeBits: seq<bool>, dataBits: seq<bool>, inodes: seq<Inode>, data: seq<Block>)

  predicate Shape(img: Image) {
    |img.inodeBits| == |img.dataBits| == |img.inodes| == |img.data| == BITMAP_COUNT
  }

  // ----- Observations -----

  predicate Allocated(img: Image, i: int) {
    0 <= i < |img.inodeBits| && i < |img.inodes| && img.inodeBits[i]
  }

  predicate IsDir(img: Image, i: int) {
    Allocated(img, i) && img.inodes[i].kind == DIRECTORY
  }

  predicate HasBlock(img: Image, i: int, b: int) {
    Allocated(img, i) && 0 <= b < img.inodes[i].blocks && b < POINTERS
  }

  function BlockOf(img: Image, i: int, b: int): int
    requires HasBlock(img, i, b)
  {
    img.inodes[i].pointer[b]
  }

  datatype Slot = Slot(dir: int, block: int, entry: int) {
    /** The positions of "." and ".." in a directory. */
    predicate IsDot() { block == 0 && 0 <= entry <= 1 }
  }

  predicate IsSlot(img: Image, s: Slot) {
    IsDir(img, s.dir) && HasBlock(img, s.dir, s.block) && 0 <= s.entry < DIR_ENT_COUNT
    && 0 <= BlockOf(img, s.dir, s.block) < |img.data|
  }

  function EntryAt(img: Image, s: Slot): DirEnt
    requires IsSlot(img, s)
  {
    img.data[BlockOf(img, s.dir, s.block)][s.entry]
  }

  /** The inode a slot names, EMPTY when it names none or is no slot. */
  function Named(img: Image, s: Slot): int {
    if IsSlot(img, s) then EntryAt(img, s).inum else EMPTY
  }

  /** The name in a slot. */
  function NameAt(img: Image, s: Slot): seq<char> {
    if IsSlot(img, s) then CStr(EntryAt(img, s).name) else []
  }

  ghost function LiveSlots(img: Image, d: int): set<Slot> {
    set b: int, e: int | 0 <= b < POINTERS && 0 <= e < DIR_ENT_COUNT && Named(img, Slot(d, b, e)) != EMPTY
      :: Slot(d, b, e)
  }

  // ----- Consistency -----

  /** Who owns a data block, which slot names an inode, and how far it is from the root. */
  datatype Witness = Witness(owner: map<int, (int, int)>, namer: map<int, Slot>, depth: map<int, nat>)

  ghost predicate InodesOk(img: Image) {
    && IsDir(img, 0)
    && (forall i :: Allocated(img, i) ==>
          && 0 <= i < BITMAP_SIZE && 0 <= img.inodes[i].blocks <= POINTERS
          && (IsDir(img, i) ==> img.inodes[i].blocks >= 1))
    && (forall i :: 0 <= i < |img.inodes| && !Allocated(img, i) ==> img.inodes[i].blocks <= 0)
    && img.inodes[0].pointer[0] == 0
  }

  ghost predicate BlocksOk(img: Image, w: Witness) {
    && (forall i, b :: HasBlock(img, i, b) ==>
          var n := BlockOf(img, i, b);
          0 <= n < |img.dataBits| && img.dataBits[n] && n in w.owner && w.owner[n] == (i, b))
    && (forall n :: 0 <= n < |img.dataBits| && img.dataBits[n] ==>
          n in w.owner && HasBlock(img, w.owner[n].0, w.owner[n].1) && BlockOf(img, w.owner[n].0, w.owner[n].1) == n)
  }

  ghost predicate NamesOk(img: Image, w: Witness) {
    && (forall s :: Named(img, s) != EMPTY && !s.IsDot() ==>
          var i := Named(img, s);
          i != 0 && Allocated(img, i) && i in w.namer && w.namer[i] == s)
    && (forall i :: Allocated(img, i) && i != 0 ==>
          i in w.namer && !w.namer[i].IsDot() && Named(img, w.namer[i]) == i)
  }

  ghost predicate DepthOk(img: Image, w: Witness) {
    && 0 in w.depth && w.depth[0] == 0
    && forall i :: Allocated(img, i) && i != 0 ==>
         && i in w.namer && i in w.depth && w.namer[i].dir in w.depth
         && w.depth[i] == w.depth[w.namer[i].dir] + 1
  }

  function ParentOf(w: Witness, d: int): int {
    if d in w.namer then w.namer[d].dir else 0
  }

  ghost predicate DotsOk(img: Image, w: Witness) {
    0 !in w.namer &&
    forall d :: IsDir(img, d) ==>
      && Named(img, Slot(d, 0, 0)) == d != EMPTY && NameAt(img, Slot(d, 0, 0)) == DOT
      && Named(img, Slot(d, 0, 1)) == ParentOf(w, d) != EMPTY && NameAt(img, Slot(d, 0, 1)) == DOTDOT
  }

  ghost predicate SizesOk(img: Image) {
    forall d :: IsDir(img, d) ==> img.inodes[d].size == DIR_ENT_SIZE * |LiveSlots(img, d)|
  }

  predicate RootEntry(img: Image, s: Slot) {
    s.dir == 0 && s.block == 0 && Named(img, s) != EMPTY
  }

  /** No two live entries of the root's first block have the same name. */
  ghost predicate RootNamesOk(img: Image) {
    forall s, t :: RootEntry(img, s) && RootEntry(img, t) && NameAt(img, s) == NameAt(img, t) ==> s == t
  }

  ghost predicate Consistent(img: Image, w: Witness) {
    && Shape(img) && InodesOk(img) && BlocksOk(img, w) && NamesOk(img, w)
    && DepthOk(img, w) && DotsOk(img, w) && SizesOk(img) && RootNamesOk(img)
  }

  // ----- Searches -----

  function LowestClear(bits: seq<bool>): (k: nat)
    ensures k <= |bits|
    ensures k < |bits| ==> !bits[k]
    ensures forall j :: 0 <= j < k ==> bits[j]
  {
    if bits == [] || !bits[0] then 0 else 1 + LowestClear(bits[1..])
  }

  lemma LowestClearUnique(bits: seq<bool>, k: nat)
    requires k <= |bits| && (k < |bits| ==> !bits[k])
    requires forall j :: 0 <= j < k ==> bits[j]
    ensures LowestClear(bits) == k
  {
  }

  /** First unused entry at or after position e. */
  function FirstEmpty(b: Block, e: nat := 0): (r: nat)
    requires e <= DIR_ENT_COUNT
    ensures e <= r <= DIR_ENT_COUNT
    ensures r < DIR_ENT_COUNT ==> b[r].inum == EMPTY
    ensures forall j :: e <= j < r ==> b[j].inum != EMPTY
    decreases DIR_ENT_COUNT - e
  {
    if e == DIR_ENT_COUNT || b[e].inum == EMPTY then e else FirstEmpty(b, e + 1)
  }

  predicate EntryMatches(ent: DirEnt, name: seq<char>) {
    ent.inum != EMPTY && SameName(ent.name, name)
  }

  /** First live entry of that name at or after position e. */
  function FindName(b: Block, name: seq<char>, e: nat := 0): (r: nat)
    requires e <= DIR_ENT_COUNT
    ensures e <= r <= DIR_ENT_COUNT
    ensures r < DIR_ENT_COUNT ==> EntryMatches(b[r], name)
    ensures forall j :: e <= j < r ==> !EntryMatches(b[j], name)
    decreases DIR_ENT_COUNT - e
  {
    if e == DIR_ENT_COUNT || EntryMatches(b[e], name) then e else FindName(b, name, e + 1)
  }

  /** Block and entry of the first unused entry of a directory; its block count when it is full. */
  function FreeSlot(img: Image, d: int, b: nat := 0): (r: Slot)
    requires Shape(img) && 0 <= d < BITMAP_COUNT && b <= img.inodes[d].blocks <= POINTERS
    requires forall c :: 0 <= c < img.inodes[d].blocks ==> 0 <= img.inodes[d].pointer[c] < BITMAP_COUNT
    ensures r.dir == d && b <= r.block <= img.inodes[d].blocks
    ensures r.block < img.inodes[d].blocks ==>
              0 <= r.entry < DIR_ENT_COUNT && img.data[img.inodes[d].pointer[r.block]][r.entry].inum == EMPTY
    ensures forall c, e :: b <= c < r.block && 0 <= e < DIR_ENT_COUNT ==>
              img.data[img.inodes[d].pointer[c]][e].inum != EMPTY
    decreases img.inodes[d].blocks - b
  {
    if b == img.inodes[d].blocks then Slot(d, b, 0)
    else
      var e := FirstEmpty(img.data[img.inodes[d].pointer[b]]);
      if e < DIR_ENT_COUNT then Slot(d, b, e) else FreeSlot(img, d, b + 1)
  }

  // ----- Changes -----

  function Blank(b: Block): Block {
    seq(DIR_ENT_COUNT, e requires 0 <= e < DIR_ENT_COUNT => DirEnt(EMPTY, b[e].name))
  }

  /** A full directory gets one more block, number n, of unused entries; the names left in them
      are those of the buffer they are written from. */
  function Grow(img: Image, d: int, n: int, buffer: Block): Image
    requires Shape(img) && 0 <= d < BITMAP_COUNT && 0 <= n < BITMAP_COUNT
    requires 0 <= img.inodes[d].blocks < POINTERS
  {
    var node := img.inodes[d];
    Image(img.inodeBits, img.dataBits[n := true],
          img.inodes[d := node.(blocks := node.blocks + 1, pointer := node.pointer[node.blocks := n])],
          img.data[n := Blank(buffer)])
  }

  /** Slot s of a directory names inode i. */
  function AddEntry(img: Image, s: Slot, i: int, name: seq<char>): Image
    requires Shape(img) && IsSlot(img, s)
  {
    var n := BlockOf(img, s.dir, s.block);
    var ent := DirEnt(i, StrNCpy(img.data[n][s.entry].name, name, NAME_SIZE));
    var parent := img.inodes[s.dir];
    img.(inodes := img.inodes[s.dir := parent.(size := parent.size + DIR_ENT_SIZE)],
         data := img.data[n := img.data[n][s.entry := ent]])
  }

  /** Inode i is taken and entered in slot s; as yet it has no block. */
  function AddFile(img: Image, s: Slot, i: int, name: seq<char>, node: Inode): Image
    requires Shape(img) && IsSlot(img, s) && 0 <= i < BITMAP_COUNT && i != s.dir
  {
    var entered := AddEntry(img, s, i, name);
    entered.(inodeBits := img.inodeBits[i := true], inodes := entered.inodes[i := node])
  }

  /** The block init_obj writes for a new directory; `stack` is what its buffer held before. */
  function DotBlock(i: int, parent: int, stack: Block): Block {
    seq(DIR_ENT_COUNT, e requires 0 <= e < DIR_ENT_COUNT =>
      if e == 0 then DirEnt(i, StrNCpy(stack[0].name, DOT, 2))
      else if e == 1 then DirEnt(parent, StrNCpy(stack[1].name, DOTDOT, 3))
      else DirEnt(EMPTY, stack[e].name))
  }

  function AddDotBlock(img: Image, i: int, parent: int, n: int, stack: Block): Image
    requires Shape(img) && 0 <= n < BITMAP_COUNT
  {
    img.(dataBits := img.dataBits[n := true], data := img.data[n := DotBlock(i, parent, stack)])
  }

  /** Inode i, without blocks so far, becomes a directory whose first block is number n. */
  function MakeDir(img: Image, i: int, parent: int, n: int, stack: Block, node: Inode): Image
    requires Shape(img) && 0 <= i < BITMAP_COUNT && 0 <= n < BITMAP_COUNT
  {
    AddDotBlock(img, i, parent, n, stack).(inodes := img.inodes[i := node])
  }

  function ZeroInode(): Inode {
    Inode(0, 0, 0, seq(POINTERS, _ => 0))
  }

  function ZeroBlock(): Block {
    seq(DIR_ENT_COUNT, _ => DirEnt(0, []))
  }

  /** A new image: zeros, and the root directory in inode 0 and data block 0. */
  function NewImage(stack: Block, pointers: Pointers): Image {
    Image(seq(BITMAP_COUNT, _ => false)[0 := true], seq(BITMAP_COUNT, _ => false)[0 := true],
          seq(BITMAP_COUNT, _ => ZeroInode())[0 := Inode(DIRECTORY, 2 * DIR_ENT_SIZE, 1, pointers[0 := 0])],
          seq(BITMAP_COUNT, _ => ZeroBlock())[0 := DotBlock(0, 0, stack)])
  }

  function ClearBits(bits: seq<bool>, ns: seq<int>): seq<bool> {
    seq(|bits|, n requires 0 <= n < |bits| => bits[n] && n !in ns)
  }

  /** The entry in slot s goes, and with it inode i and its blocks. */
  function RemoveObject(img: Image, s: Slot, i: int): Image
    requires Shape(img) && IsSlot(img, s) && 0 <= i < BITMAP_COUNT && i != s.dir
    requires 0 <= img.inodes[i].blocks <= POINTERS
  {
    var n := BlockOf(img, s.dir, s.block);
    var parent, self := img.inodes[s.dir], img.inodes[i];
    Image(img.inodeBits[i := false], ClearBits(img.dataBits, self.pointer[..self.blocks]),
          img.inodes[i := self.(blocks := -1)][s.dir := parent.(size := parent.size - DIR_ENT_SIZE)],
          img.data[n := img.data[n][s.entry := DirEnt(EMPTY, img.data[n][s.entry].name)]])
  }

  /** A write to block b of inode i, whatever the inode: through the pointer found there, or into
      block number n, newly taken, when b is the next block of the inode. */
  function WriteBlock(img: Image, i: int, b: int, n: int, buffer: Block): Image
    requires Shape(img) && 0 <= i < BITMAP_COUNT && 0 <= b < POINTERS && 0 <= n < BITMAP_COUNT
    requires b != img.inodes[i].blocks ==> img.inodes[i].pointer[b] == n
  {
    var self := img.inodes[i];
    if b == self.blocks then
      Image(img.inodeBits, img.dataBits[n := true],
            img.inodes[i := Inode(self.kind, self.size + BLOCK_SIZE, b + 1, self.pointer[b := n])],
            img.data[n := buffer])
    else
      img.(inodes := img.inodes[i := self.(size := self.size + BLOCK_SIZE)], data := img.data[n := buffer])
  }
}
