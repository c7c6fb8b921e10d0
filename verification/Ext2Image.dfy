/** ssu_ext2's view of an arbitrary image file: the superblock and group checks, inodes, and
    the translation of file blocks (The Second Extended File System: Internal Layout,
    "i_block").  Reading the image file itself succeeds inside the file and fails outside. */
module Ext2Image {
  import opened Common

  newtype Byte = x: int | 0 <= x < 256

  datatype Fs = Fs(
    image: seq<Byte>, inodesCount: nat, blocksCount: nat, firstDataBlock: nat, blockSize: nat,
    blocksPerGroup: nat, inodesPerGroup: nat, inodeSize: nat, groupsCount: nat, inodeTables: seq<nat>)

  datatype Inode = Inode(mode: nat, sizeLow: nat, sizeHigh: nat, blocks: seq<nat>)

  function Le16(b: seq<Byte>, at: nat): (r: nat)
    requires at + 2 <= |b|
    ensures r < 0x10000
  {
    b[at] as nat + 0x100 * b[at + 1] as nat
  }

  function Le32(b: seq<Byte>, at: nat): (r: nat)
    requires at + 4 <= |b|
    ensures r < 0x1_0000_0000
  {
    Le16(b, at) + 0x10000 * Le16(b, at + 2)
  }

  /** image_read. */
  function Read(image: seq<Byte>, offset: nat, size: nat): (r: Option<seq<Byte>>)
    ensures r.Some? <==> offset + size <= |image|
    ensures r.Some? ==> |r.value| == size && r.value == image[offset..offset + size]
  {
    if offset + size <= |image| then Some(image[offset..offset + size]) else None
  }

  lemma MulMono(a: nat, b: nat, d: nat)
    requires a <= b
    ensures a * d <= b * d
  {
    assert (b - a) * d == b * d - a * d;
  }

  lemma Distribute(a: nat, b: nat, d: nat)
    ensures (a + b) * d == a * d + b * d
  {
  }

  function CeilDiv(value: nat, divisor: nat): (r: nat)
    requires divisor > 0
    ensures r * divisor >= value && (r > 0 ==> (r - 1) * divisor < value)
  {
    CeilDivExact(value, divisor);
    value / divisor + if value % divisor != 0 then 1 else 0
  }

  lemma CeilDivExact(value: nat, divisor: nat)
    requires divisor > 0
    ensures var r := value / divisor + if value % divisor != 0 then 1 else 0;
            r * divisor >= value && (r > 0 ==> (r - 1) * divisor < value)
  {
    var q, m := value / divisor, value % divisor;
    assert value == q * divisor + m;
    assert (q + 1) * divisor == q * divisor + divisor;
    assert (q - 1) * divisor == q * divisor - divisor;
  }

  /** What ext2_open has checked of an image it accepts. */
  ghost predicate Geometry(fs: Fs) {
    && Checked(fs)
    && fs.inodesCount <= fs.groupsCount * fs.inodesPerGroup
    && |fs.inodeTables| == fs.groupsCount && forall g :: 0 <= g < fs.groupsCount ==> 0 < fs.inodeTables[g] < fs.blocksCount
  }

  predicate Checked(fs: Fs) {
    && 2 <= fs.inodesCount && 0 < fs.blocksCount && 0 < fs.blocksPerGroup && 0 < fs.inodesPerGroup && fs.firstDataBlock < fs.blocksCount
    && 1024 <= fs.blockSize <= 65536 && fs.blockSize % 4 == 0 && 128 <= fs.inodeSize <= fs.blockSize
    && fs.blocksCount * fs.blockSize <= |fs.image|
  }

  /** 1024 << log, for the exponents that are supported. */
  function BlockSize(log: nat): (r: nat)
    requires log <= 6
    ensures 1024 <= r <= 65536 && r % 4 == 0
  {
    if log == 0 then 1024 else if log == 1 then 2048 else if log == 2 then 4096 else if log == 3 then 8192
    else if log == 4 then 16384 else if log == 5 then 32768 else 65536
  }

  /** The fields of the superblock, which starts at byte 1024; those for groups are not set. */
  function SuperFs(image: seq<Byte>): Fs
    requires |image| >= 2048 && Le32(image, 1048) <= 6
  {
    var inodeSize := if Le32(image, 1100) == 0 || Le16(image, 1112) == 0 then 128 else Le16(image, 1112);
    Fs(image, Le32(image, 1024), Le32(image, 1028), Le32(image, 1044), BlockSize(Le32(image, 1048)),
       Le32(image, 1056), Le32(image, 1064), inodeSize, 0, [])
  }

  /** A superblock that is accepted: magic number, known features, and a geometry that makes
      sense and fits the image. */
  predicate SuperOk(image: seq<Byte>) {
    && |image| >= 2048 && Le16(image, 1080) == 0xEF53 && Le32(image, 1048) <= 6
    && Checked(SuperFs(image)) && SuperFs(image).inodeSize % 4 == 0
    && (Le32(image, 1120) == 0 || Le32(image, 1120) == 2)
    && SuperFs(image).inodesCount <= |image| / 128 + 1
  }

  /** Enough groups for all blocks and for all inodes. */
  function Groups(fs: Fs): nat
    requires Checked(fs)
  {
    var blockGroups := CeilDiv(fs.blocksCount - fs.firstDataBlock, fs.blocksPerGroup);
    var inodeGroups := CeilDiv(fs.inodesCount, fs.inodesPerGroup);
    if blockGroups > inodeGroups then blockGroups else inodeGroups
  }

  /** A group descriptor inside the image that names a block. */
  predicate DescriptorOk(fs: Fs, g: nat) {
    && Descriptor(fs, g) + 32 <= |fs.image|
    && 0 < Le32(fs.image, Descriptor(fs, g) + 8) < fs.blocksCount
  }

  /** The images ext2_open accepts. */
  predicate Accepted(image: seq<Byte>) {
    && SuperOk(image) && Groups(SuperFs(image)) > 0
    && forall g :: 0 <= g < Groups(SuperFs(image)) ==> DescriptorOk(SuperFs(image), g)
  }

  /** The third word of a group descriptor; descriptors start in the block after the superblock's. */
  predicate TableFrom(fs: Fs, tables: seq<nat>, g: nat) {
    && g < |tables| && Descriptor(fs, g) + 32 <= |fs.image| && tables[g] == Le32(fs.image, Descriptor(fs, g) + 8)
  }

  function Descriptor(fs: Fs, g: nat): nat {
    (fs.firstDataBlock + 1) * fs.blockSize + g * 32
  }

  lemma ReadWords(image: seq<Byte>, offset: nat, size: nat, at: nat)
    requires offset + size <= |image|
    ensures at + 2 <= size ==> Le16(image[offset..offset + size], at) == Le16(image, offset + at)
    ensures at + 4 <= size ==> Le32(image[offset..offset + size], at) == Le32(image, offset + at)
  {
  }

  /** The checks of ext2_open that need the superblock only; the fields for groups are not set. */
  method ReadSuper(image: seq<Byte>) returns (r: Option<Fs>)
    ensures r.Some? <==> SuperOk(image)
    ensures r.Some? ==> r.value == SuperFs(image)
  {
    hide Le16, Le32;
    var super := Read(image, 1024, 1024);
    if super.None? { return None; }
    var s := super.value;
    forall at: nat | at + 4 <= 1024 ensures Le16(s, at) == Le16(image, 1024 + at) && Le32(s, at) == Le32(image, 1024 + at) {
      ReadWords(image, 1024, 1024, at);
    }
    if Le16(s, 56) != 0xEF53 { return None; }
    var log, revision, incompat := Le32(s, 24), Le32(s, 76), Le32(s, 96);
    if log > 6 { return None; }
    var inodeSize := if revision == 0 then 128 else Le16(s, 88);
    if inodeSize == 0 { inodeSize := 128; }
    var fs := Fs(image, Le32(s, 0), Le32(s, 4), Le32(s, 20), BlockSize(log), Le32(s, 32), Le32(s, 40), inodeSize, 0, []);
    if fs.inodesCount < 2 || fs.blocksCount == 0 || fs.blocksPerGroup == 0 || fs.inodesPerGroup == 0
       || fs.firstDataBlock >= fs.blocksCount || fs.inodeSize < 128 || fs.inodeSize > fs.blockSize || fs.inodeSize % 4 != 0 {
      return None;
    }
    if incompat != 0 && incompat != 2 { return None; }
    if fs.blocksCount * fs.blockSize > |image| || fs.inodesCount > |image| / 128 + 1 { return None; }
    return Some(fs);
  }

  /** ext2_open on the bytes of an image. */
  method Open(image: seq<Byte>) returns (r: Option<Fs>)
    ensures r.Some? <==> Accepted(image)
    ensures r.Some? ==>
              && Geometry(r.value)
              && r.value == SuperFs(image).(groupsCount := Groups(SuperFs(image)), inodeTables := r.value.inodeTables)
              && forall g :: 0 <= g < r.value.groupsCount ==> TableFrom(SuperFs(image), r.value.inodeTables, g)
  {
    hide Le16, Le32, DescriptorOk, TableFrom;
    var super := ReadSuper(image);
    if super.None? { return None; }
    var fs := super.value;
    var groups := Groups(fs);
    if groups == 0 { return None; }
    var tables := InodeTables(fs, groups);
    if tables.None? { return None; }
    MoreGroups(fs.inodesCount, CeilDiv(fs.inodesCount, fs.inodesPerGroup), groups, fs.inodesPerGroup);
    return Some(fs.(groupsCount := groups, inodeTables := tables.value));
  }

  lemma MoreGroups(inodes: nat, few: nat, many: nat, each: nat)
    requires inodes <= few * each && few <= many
    ensures inodes <= many * each
  {
    MulMono(few, many, each);
  }

  /** The loop over the group descriptors. */
  method InodeTables(fs: Fs, groups: nat) returns (r: Option<seq<nat>>)
    ensures r.Some? <==> forall g :: 0 <= g < groups ==> DescriptorOk(fs, g)
    ensures r.Some? ==> |r.value| == groups && forall g :: 0 <= g < groups ==> 0 < r.value[g] < fs.blocksCount && TableFrom(fs, r.value, g)
  {
    var tables: seq<nat> := [];
    var start := (fs.firstDataBlock + 1) * fs.blockSize;
    for g := 0 to groups
      invariant |tables| == g && forall i :: 0 <= i < g ==> 0 < tables[i] < fs.blocksCount && TableFrom(fs, tables, i) && DescriptorOk(fs, i)
    {
      assert Descriptor(fs, g) == start + g * 32;
      var d := Read(fs.image, start + g * 32, 32);
      if d.None? {
        assert !DescriptorOk(fs, g);
        return None;
      }
      ReadWords(fs.image, start + g * 32, 32, 8);
      var table := Le32(d.value, 8);
      if table == 0 || table >= fs.blocksCount {
        assert !DescriptorOk(fs, g);
        return None;
      }
      tables := tables + [table];
    }
    return Some(tables);
  }

  // ----------------------------------------------------------------- inodes

  /** Every inode number of an accepted image has a group. */
  lemma GroupExists(fs: Fs, ino: nat)
    requires Geometry(fs) && 1 <= ino <= fs.inodesCount
    ensures (ino - 1) / fs.inodesPerGroup < fs.groupsCount
  {
    Split(ino - 1, fs.inodesPerGroup, fs.groupsCount);
  }

  /** ext2_read_inode. */
  function ReadInode(fs: Fs, ino: nat): (r: Option<Inode>)
    requires Geometry(fs)
    ensures r.Some? ==> 1 <= ino <= fs.inodesCount && |r.value.blocks| == 15
  {
    if ino == 0 || ino > fs.inodesCount then None
    else
      GroupExists(fs, ino);
      var group, index := (ino - 1) / fs.inodesPerGroup, (ino - 1) % fs.inodesPerGroup;
      var raw := Read(fs.image, fs.inodeTables[group] * fs.blockSize + index * fs.inodeSize, 128);
      if raw.None? then None
      else
        var b := raw.value;
        Some(Inode(Le16(b, 0), Le32(b, 4), Le32(b, 108), seq(15, i requires 0 <= i < 15 => Le32(b, 40 + i * 4))))
  }

  predicate IsDir(inode: Inode) {
    inode.mode / 0x1000 == 4
  }

  predicate IsRegular(inode: Inode) {
    inode.mode / 0x1000 == 8
  }

  /** ext2_inode_size. */
  function Size(inode: Inode): nat {
    if IsRegular(inode) then inode.sizeLow + 0x1_0000_0000 * inode.sizeHigh else inode.sizeLow
  }

  // ----------------------------------------------------------------- file blocks

  /** ext2_read_pointer: entry `index` of a pointer block, 0 of a hole. */
  function Pointer(fs: Fs, block: nat, index: nat): (r: Option<nat>)
    requires Geometry(fs)
    ensures r.Some? ==> r.value < fs.blocksCount
    ensures block == 0 ==> r == Some(0)
  {
    if block == 0 then Some(0)
    else if block >= fs.blocksCount || index >= fs.blockSize / 4 then None
    else
      var raw := Read(fs.image, block * fs.blockSize + index * 4, 4);
      if raw.None? || Le32(raw.value, 0) >= fs.blocksCount then None else Some(Le32(raw.value, 0))
  }

  function Offset(fs: Fs, block: nat): nat {
    block * fs.blockSize
  }

  /** Every block of an accepted image lies wholly inside it. */
  lemma BlockInside(fs: Fs, block: nat)
    requires Geometry(fs) && block < fs.blocksCount
    ensures Offset(fs, block) + fs.blockSize <= |fs.image|
  {
    MulMono(block + 1, fs.blocksCount, fs.blockSize);
    Distribute(block, 1, fs.blockSize);
  }

  // ----------------------------------------------------------------- the slots of i_block

  /** Which pointer of which pointer block a file block uses. */
  datatype Slot = Direct(i: nat) | Single(i: nat) | Double(i: nat, j: nat) | Triple(i: nat, j: nat, k: nat)

  predicate ValidSlot(per: nat, s: Slot) {
    match s
    case Direct(i) => i < 12
    case Single(i) => i < per
    case Double(i, j) => i < per && j < per
    case Triple(i, j, k) => i < per && j < per && k < per
  }

  /** The file block a slot is for, as the layout lists them. */
  function Logical(per: nat, s: Slot): nat {
    match s
    case Direct(i) => i
    case Single(i) => 12 + i
    case Double(i, j) => 12 + per + (Mul(i, per) + j)
    case Triple(i, j, k) => 12 + per + Mul(per, per) + (Mul(i, Mul(per, per)) + (Mul(j, per) + k))
  }

  function Follow(fs: Fs, inode: Inode, s: Slot): Option<nat>
    requires Geometry(fs) && |inode.blocks| == 15 && ValidSlot(fs.blockSize / 4, s)
  {
    match s
    case Direct(i) => if inode.blocks[i] < fs.blocksCount then Some(inode.blocks[i]) else None
    case Single(i) => Pointer(fs, inode.blocks[12], i)
    case Double(i, j) => Then(fs, Pointer(fs, inode.blocks[13], i), j)
    case Triple(i, j, k) => Then(fs, Then(fs, Pointer(fs, inode.blocks[14], i), j), k)
  }

  function Then(fs: Fs, block: Option<nat>, index: nat): Option<nat>
    requires Geometry(fs)
  {
    if block.None? then None else Pointer(fs, block.value, index)
  }

  /** How ext2_data_block divides up a file block number; None past the last triple slot. */
  function SlotOf(per: nat, logical: nat): Option<Slot>
    requires per > 0
  {
    Square(per);
    var twice := Mul(per, per);
    if logical < 12 then Some(Direct(logical))
    else if logical - 12 < per then Some(Single(logical - 12))
    else
      var l := logical - 12 - per;
      if l < twice then Some(Double(Quot(l, per), Rem(l, per)))
      else if l - twice >= Mul(per, twice) then None
      else
        var rest := Rem(l - twice, twice);
        Some(Triple(Quot(l - twice, twice), Quot(rest, per), Rem(rest, per)))
  }

  function Quot(x: nat, d: nat): nat
    requires d > 0
  {
    x / d
  }

  function Rem(x: nat, d: nat): nat
    requires d > 0
  {
    x % d
  }

  function Mul(a: nat, b: nat): nat {
    a * b
  }

  lemma Square(per: nat)
    requires per > 0
    ensures Mul(per, per) > 0
  {
  }

  /** ext2_data_block: the block that holds a file block, 0 for a hole. */
  function DataBlock(fs: Fs, inode: Inode, logical: nat): (r: Option<nat>)
    requires Geometry(fs) && |inode.blocks| == 15
    ensures r.Some? ==> r.value < fs.blocksCount
  {
    SlotsValid(fs.blockSize / 4, logical);
    match SlotOf(fs.blockSize / 4, logical)
    case None => None
    case Some(s) => Follow(fs, inode, s)
  }

  /** So a file block that is translated can be read. */
  lemma DataBlockInside(fs: Fs, inode: Inode, logical: nat, amount: nat)
    requires Geometry(fs) && |inode.blocks| == 15 && amount <= fs.blockSize
    ensures DataBlock(fs, inode, logical).Some? ==> Read(fs.image, Offset(fs, DataBlock(fs, inode, logical).value), amount).Some?
  {
    if DataBlock(fs, inode, logical).Some? {
      BlockInside(fs, DataBlock(fs, inode, logical).value);
    }
  }

  lemma Split(x: nat, d: nat, n: nat)
    requires d > 0 && x < n * d
    ensures x / d < n && x % d < d && x == (x / d) * d + x % d
  {
    var q := x / d;
    assert x == q * d + x % d;
    assert q < n by {
      if n <= q { MulMono(n, q, d); }
    }
  }

  lemma DivMod(a: nat, b: nat, d: nat)
    requires b < d
    ensures Quot(Mul(a, d) + b, d) == a && Rem(Mul(a, d) + b, d) == b
  {
    var x := a * d + b;
    Distribute(a, 1, d);
    Split(x, d, a + 1);
    var q := x / d;
    assert q >= a by {
      if q < a { MulMono(q + 1, a, d); Distribute(q, 1, d); }
    }
  }

  lemma SplitParts(x: nat, d: nat, n: nat)
    requires d > 0 && x < Mul(n, d)
    ensures Quot(x, d) < n && Rem(x, d) < d && Mul(Quot(x, d), d) + Rem(x, d) == x
  {
    Split(x, d, n);
  }

  lemma Bounds(n: nat, d: nat, i: nat, j: nat)
    requires i < n && j < d
    ensures Mul(i, d) + j < Mul(n, d)
  {
    MulMono(i + 1, n, d);
    Distribute(i, 1, d);
  }

  lemma SlotsValid(per: nat, logical: nat)
    requires per > 0
    ensures SlotOf(per, logical).Some? ==> ValidSlot(per, SlotOf(per, logical).value) && Logical(per, SlotOf(per, logical).value) == logical
    ensures SlotOf(per, logical).None? <==> logical >= 12 + per + Mul(per, per) + Mul(per, Mul(per, per))
  {
    hide Mul, Quot, Rem;
    Square(per);
    var twice := Mul(per, per);
    if 12 + per <= logical {
      var l := logical - 12 - per;
      if l < twice {
        SplitParts(l, per, per);
      } else if l - twice < Mul(per, twice) {
        SplitParts(l - twice, twice, per);
        SplitParts(Rem(l - twice, twice), per, per);
      }
    }
  }

  /** The four kinds of slot cover the file blocks below 12 + per + per^2 + per^3, each block
      by exactly one slot, and that is the slot the divisions find. */
  lemma SlotBijection(per: nat, s: Slot)
    requires per > 0 && ValidSlot(per, s)
    ensures SlotOf(per, Logical(per, s)) == Some(s)
  {
    hide Mul, Quot, Rem;
    match s
    case Direct(i) =>
    case Single(i) =>
    case Double(i, j) =>
      Bounds(per, per, i, j);
      DivMod(i, j, per);
    case Triple(i, j, k) =>
      var twice := Mul(per, per);
      Bounds(per, per, j, k);
      Bounds(per, twice, i, Mul(j, per) + k);
      DivMod(i, Mul(j, per) + k, twice);
      DivMod(j, k, per);
  }

  /** Following the pointers of a slot is what ext2_data_block does for its file block. */
  lemma DataBlockFollows(fs: Fs, inode: Inode, s: Slot)
    requires Geometry(fs) && |inode.blocks| == 15 && ValidSlot(fs.blockSize / 4, s)
    ensures DataBlock(fs, inode, Logical(fs.blockSize / 4, s)) == Follow(fs, inode, s)
  {
    hide Mul, Quot, Rem, Logical, SlotOf, Follow;
    SlotBijection(fs.blockSize / 4, s);
  }
}
