/** The on-disk layout of ext2 as its writer sees it: consecutive records, fields one after the
    other, little-endian.  What was written is what ssu_ext2 reads (The Second Extended File
    System: Internal Layout, "Superblock", "Block Group Descriptor Table", "Inode Table",
    "Linked Directory Entry Structure"). */
module Ext2Layout {
  import opened Common
  import opened Ext2Image
  import opened Ext2Print
  import opened Ext2Tree

  // ----------------------------------------------------------------- records in a row

  /** What is left of s after i records of `size` bytes. */
  function Rest(s: seq<Byte>, size: nat, i: nat): seq<Byte> {
    if i == 0 then s else if |s| < size then [] else Rest(s[size..], size, i - 1)
  }

  lemma {:induction false} RestIs(s: seq<Byte>, size: nat, i: nat)
    ensures Rest(s, size, i) == if i * size <= |s| then s[i * size..] else []
  {
    if i > 0 {
      Distribute(i - 1, 1, size);
      MulMono(0, i - 1, size);
      if |s| >= size { RestIs(s[size..], size, i - 1); }
    }
  }

  // ----------------------------------------------------------------- fields

  function Enc16(n: nat): (b: seq<Byte>)
    requires n < 0x10000
    ensures |b| == 2
  {
    [(n % 0x100) as Byte, (n / 0x100) as Byte]
  }

  function Enc32(n: nat): (b: seq<Byte>)
    requires n < 0x1_0000_0000
    ensures |b| == 4
  {
    Enc16(n % 0x10000) + Enc16(n / 0x10000)
  }

  function EncAll(words: seq<nat>): (b: seq<Byte>)
    requires forall i :: 0 <= i < |words| ==> words[i] < 0x1_0000_0000
    ensures |b| == 4 * |words|
  {
    if words == [] then [] else Enc32(words[0]) + EncAll(words[1..])
  }

  lemma Field16(a: seq<Byte>, n: nat, c: seq<Byte>)
    requires n < 0x10000
    ensures Le16(a + Enc16(n) + c, |a|) == n
  {
    var b := a + Enc16(n) + c;
    assert b[|a|] == Enc16(n)[0] && b[|a| + 1] == Enc16(n)[1];
  }

  lemma Field32(a: seq<Byte>, n: nat, c: seq<Byte>)
    requires n < 0x1_0000_0000
    ensures Le32(a + Enc32(n) + c, |a|) == n
  {
    var lo, hi := n % 0x10000, n / 0x10000;
    assert a + Enc32(n) + c == a + Enc16(lo) + (Enc16(hi) + c);
    assert a + Enc32(n) + c == (a + Enc16(lo)) + Enc16(hi) + c;
    Field16(a, lo, Enc16(hi) + c);
    Field16(a + Enc16(lo), hi, c);
  }

  lemma {:induction false} Words(a: seq<Byte>, words: seq<nat>, c: seq<Byte>, i: nat)
    requires i < |words| && forall j :: 0 <= j < |words| ==> words[j] < 0x1_0000_0000
    ensures Le32(a + EncAll(words) + c, |a| + 4 * i) == words[i]
    decreases i
  {
    var b := a + EncAll(words) + c;
    var rest := EncAll(words[1..]);
    if i == 0 {
      assert b == a + Enc32(words[0]) + (rest + c);
      Field32(a, words[0], rest + c);
    } else {
      assert b == (a + Enc32(words[0])) + rest + c;
      Words(a + Enc32(words[0]), words[1..], c, i - 1);
    }
  }

  /** Every two and every four bytes are some number. */
  lemma Decoded(b: seq<Byte>, at: nat)
    ensures at + 2 <= |b| ==> Enc16(Le16(b, at)) == b[at..at + 2]
    ensures at + 4 <= |b| ==> Enc32(Le32(b, at)) == b[at..at + 4]
  {
    if at + 4 <= |b| {
      assert b[at..at + 4] == b[at..at + 2] + b[at + 2..at + 4];
      Half(b, at);
      Half(b, at + 2);
    } else if at + 2 <= |b| {
      Half(b, at);
    }
  }

  lemma Half(b: seq<Byte>, at: nat)
    requires at + 2 <= |b|
    ensures Enc16(Le16(b, at)) == b[at..at + 2]
  {
  }

  lemma Tail(image: seq<Byte>, offset: nat, at: nat)
    requires offset <= |image|
    ensures offset + at + 2 <= |image| ==> Le16(image, offset + at) == Le16(image[offset..], at)
    ensures offset + at + 4 <= |image| ==> Le32(image, offset + at) == Le32(image[offset..], at)
  {
  }

  // ----------------------------------------------------------------- blocks and inodes

  lemma SliceFrom(image: seq<Byte>, from: nat, amount: nat)
    requires from + amount <= |image|
    ensures image[from..from + amount] == image[from..][..amount]
  {
  }

  /** The bytes from block number `block` on. */
  lemma FromBlock(fs: Fs, block: nat)
    requires Geometry(fs) && block < fs.blocksCount
    ensures Offset(fs, block) + fs.blockSize <= |fs.image| && Rest(fs.image, fs.blockSize, block) == fs.image[Offset(fs, block)..]
  {
    hide Rest, Geometry;
    BlockInside(fs, block);
    RestIs(fs.image, fs.blockSize, block);
  }

  /** Block number `block` of the image. */
  lemma BlockIs(fs: Fs, block: nat, amount: nat)
    requires Geometry(fs) && block < fs.blocksCount && amount <= fs.blockSize
    ensures |Rest(fs.image, fs.blockSize, block)| >= fs.blockSize
    ensures Read(fs.image, Offset(fs, block), amount) == Some(Rest(fs.image, fs.blockSize, block)[..amount])
  {
    hide Rest, Geometry, Offset;
    FromBlock(fs, block);
    SliceFrom(fs.image, Offset(fs, block), amount);
  }

  /** An inode as it is written; the fields that are not read are gaps. */
  function InodeBytes(inode: Inode, uid: seq<Byte>, times: seq<Byte>, acl: seq<Byte>): (b: seq<Byte>)
    requires InodeFits(inode) && |uid| == 2 && |times| == 32 && |acl| == 8
    ensures |b| == 112
  {
    Enc16(inode.mode) + uid + Enc32(inode.sizeLow) + times + EncAll(inode.blocks) + acl + Enc32(inode.sizeHigh)
  }

  predicate InodeFits(inode: Inode) {
    && inode.mode < 0x10000 && inode.sizeLow < 0x1_0000_0000 && inode.sizeHigh < 0x1_0000_0000
    && |inode.blocks| == 15 && forall i :: 0 <= i < 15 ==> inode.blocks[i] < 0x1_0000_0000
  }

  /** The record of inode ino in the table of its group. */
  function InodeRecord(fs: Fs, ino: nat): seq<Byte>
    requires Geometry(fs) && 1 <= ino <= fs.inodesCount
  {
    GroupExists(fs, ino);
    Rest(Rest(fs.image, fs.blockSize, fs.inodeTables[(ino - 1) / fs.inodesPerGroup]), fs.inodeSize, (ino - 1) % fs.inodesPerGroup)
  }

  function InodeOf(record: seq<Byte>): (r: Inode)
    requires |record| >= 128
  {
    Inode(Le16(record, 0), Le32(record, 4), Le32(record, 108), seq(15, i requires 0 <= i < 15 => Le32(record, 40 + i * 4)))
  }

  /** What is written to the record of an inode is what is read. */
  lemma InodeReadBack(record: seq<Byte>, inode: Inode, uid: seq<Byte>, times: seq<Byte>, acl: seq<Byte>, osd: seq<Byte>)
    requires InodeFits(inode) && |uid| == 2 && |times| == 32 && |acl| == 8 && |osd| >= 16
    requires record == InodeBytes(inode, uid, times, acl) + osd
    ensures |record| >= 128 && InodeOf(record) == inode
  {
    var m, l, w, h := Enc16(inode.mode), Enc32(inode.sizeLow), EncAll(inode.blocks), Enc32(inode.sizeHigh);
    assert record == [] + m + (uid + l + times + w + acl + h + osd);
    Field16([], inode.mode, uid + l + times + w + acl + h + osd);
    assert record == (m + uid) + l + (times + w + acl + h + osd);
    Field32(m + uid, inode.sizeLow, times + w + acl + h + osd);
    assert record == (m + uid + l + times + w + acl) + h + osd;
    Field32(m + uid + l + times + w + acl, inode.sizeHigh, osd);
    assert record == (m + uid + l + times) + w + (acl + h + osd);
    forall i | 0 <= i < 15 ensures InodeOf(record).blocks[i] == inode.blocks[i] {
      Words(m + uid + l + times, inode.blocks, acl + h + osd, i);
    }
  }

  /** The table of a group is a row of records of inodeSize bytes, and an inode is read from its
      own, whatever the size is; it can be read exactly if 128 bytes of the record are there. */
  lemma InodeFrom(fs: Fs, ino: nat)
    requires Geometry(fs)
    ensures ReadInode(fs, ino).Some? <==> 1 <= ino <= fs.inodesCount && |InodeRecord(fs, ino)| >= 128
    ensures ReadInode(fs, ino).Some? ==> ReadInode(fs, ino).value == InodeOf(InodeRecord(fs, ino))
  {
    hide Rest, InodeOf, Le16, Le32;
    if 1 <= ino <= fs.inodesCount {
      GroupExists(fs, ino);
      var table, index := fs.inodeTables[(ino - 1) / fs.inodesPerGroup], (ino - 1) % fs.inodesPerGroup;
      FromBlock(fs, table);
      RestIs(Rest(fs.image, fs.blockSize, table), fs.inodeSize, index);
      RecordRead(fs.image, table * fs.blockSize, index * fs.inodeSize, InodeRecord(fs, ino));
    }
  }

  lemma RecordRead(image: seq<Byte>, start: nat, at: nat, record: seq<Byte>)
    requires start <= |image| && record == if at <= |image[start..]| then image[start..][at..] else []
    ensures Read(image, start + at, 128).Some? <==> |record| >= 128
    ensures |record| >= 128 ==>
              var b := Read(image, start + at, 128).value;
              InodeOf(record) == Inode(Le16(b, 0), Le32(b, 4), Le32(b, 108), seq(15, i requires 0 <= i < 15 => Le32(b, 40 + i * 4)))
  {
    if |record| >= 128 {
      assert record[..128] == image[start + at..start + at + 128];
    }
  }

  /** Inode numbers count through the tables of the groups, one after the other. */
  lemma InodeNumbers(fs: Fs, group: nat, index: nat)
    requires Geometry(fs) && index < fs.inodesPerGroup && group * fs.inodesPerGroup + index < fs.inodesCount
    ensures var ino := group * fs.inodesPerGroup + index + 1;
            group < fs.groupsCount
            && InodeRecord(fs, ino) == Rest(Rest(fs.image, fs.blockSize, fs.inodeTables[group]), fs.inodeSize, index)
  {
    DivMod(group, index, fs.inodesPerGroup);
    GroupExists(fs, group * fs.inodesPerGroup + index + 1);
  }

  lemma AfterPrefix(e: seq<Byte>, s: seq<Byte>)
    requires e <= s
    ensures s == [] + e + s[|e|..]
  {
  }

  lemma WordIn(s: seq<Byte>, words: seq<nat>, index: nat)
    requires index < |words| && forall j :: 0 <= j < |words| ==> words[j] < 0x1_0000_0000
    requires EncAll(words) <= s
    ensures 4 * index + 4 <= |s| && Le32(s, 4 * index) == words[index]
  {
    hide EncAll, Le32;
    AfterPrefix(EncAll(words), s);
    Words([], words, s[|EncAll(words)|..], index);
  }

  lemma WordAt(image: seq<Byte>, from: nat, at: nat)
    requires from + at + 4 <= |image|
    ensures Le32(image[from + at..from + at + 4], 0) == Le32(image[from..], at)
  {
    hide Le32;
    Tail(image, from, at);
    ReadWords(image, from + at, 4, 0);
  }

  /** A pointer block is a row of words. */
  lemma PointerReadBack(fs: Fs, block: nat, words: seq<nat>, index: nat)
    requires Geometry(fs) && 0 < block < fs.blocksCount && index < |words| == fs.blockSize / 4
    requires forall j :: 0 <= j < |words| ==> words[j] < 0x1_0000_0000
    requires EncAll(words) <= Rest(fs.image, fs.blockSize, block)
    ensures Pointer(fs, block, index) == if words[index] < fs.blocksCount then Some(words[index]) else None
  {
    hide Rest, Geometry, EncAll, Le32;
    FromBlock(fs, block);
    WordIn(Rest(fs.image, fs.blockSize, block), words, index);
    WordAt(fs.image, Offset(fs, block), 4 * index);
  }

  lemma PointerBounds(fs: Fs, block: nat, index: nat)
    requires Geometry(fs) && block > 0
    ensures Pointer(fs, block, index).Some? ==> block < fs.blocksCount && index < fs.blockSize / 4
  {
  }

  lemma FieldFrom(image: seq<Byte>, from: nat, bitmaps: seq<Byte>, table: nat, counts: seq<Byte>)
    requires from <= |image| && |bitmaps| == 8 && table < 0x1_0000_0000 && image[from..] == bitmaps + Enc32(table) + counts
    ensures from + 12 <= |image| && Le32(image, from + 8) == table
  {
    hide Le32, Enc32;
    Field32(bitmaps, table, counts);
    Tail(image, from, 8);
  }

  lemma RestRest(image: seq<Byte>, size: nat, i: nat, size': nat, i': nat)
    requires Rest(Rest(image, size, i), size', i') != []
    ensures i * size + i' * size' <= |image| && Rest(Rest(image, size, i), size', i') == image[i * size + i' * size'..]
  {
    hide Rest;
    RestIs(image, size, i);
    RestIs(Rest(image, size, i), size', i');
    DropDrop(image, i * size, i' * size');
  }

  lemma DropDrop(s: seq<Byte>, a: nat, b: nat)
    ensures a + b <= |s| ==> s[a..][b..] == s[a + b..]
    ensures a <= |s| && b <= |s[a..]| ==> a + b <= |s|
  {
  }

  /** A group descriptor names the block of the inode table after those of the two bitmaps. */
  lemma DescriptorReadBack(fs: Fs, tables: seq<nat>, g: nat, bitmaps: seq<Byte>, table: nat, counts: seq<Byte>)
    requires |bitmaps| == 8 && table < 0x1_0000_0000 && |counts| >= 20 && g < |tables|
    requires Rest(Rest(fs.image, fs.blockSize, fs.firstDataBlock + 1), 32, g) == bitmaps + Enc32(table) + counts
    ensures TableFrom(fs, tables, g) <==> tables[g] == table
    ensures DescriptorOk(fs, g) <==> 0 < table < fs.blocksCount
  {
    hide Rest, Le32, Enc32;
    RestRest(fs.image, fs.blockSize, fs.firstDataBlock + 1, 32, g);
    FieldFrom(fs.image, Descriptor(fs, g), bitmaps, table, counts);
  }

  // ----------------------------------------------------------------- the superblock

  datatype Super = Super(
    inodes: nat, blocks: nat, firstData: nat, logSize: nat, perGroup: nat, inodesPerGroup: nat,
    magic: nat, revision: nat, inodeSize: nat, incompat: nat)

  predicate SuperFits(f: Super) {
    && f.inodes < UINT && f.blocks < UINT && f.firstData < UINT && f.logSize < UINT && f.perGroup < UINT
    && f.inodesPerGroup < UINT && f.magic < 0x10000 && f.revision < UINT && f.inodeSize < 0x10000 && f.incompat < UINT
  }

  /** The fields that are not read, by how many bytes they take. */
  datatype Gaps = Gaps(reserved: seq<Byte>, frag: seq<Byte>, frags: seq<Byte>, mounts: seq<Byte>, state: seq<Byte>, first: seq<Byte>, compat: seq<Byte>)

  predicate GapsFit(x: Gaps) {
    && |x.reserved| == 12 && |x.frag| == 4 && |x.frags| == 4 && |x.mounts| == 12 && |x.state| == 18 && |x.first| == 8
    && |x.compat| == 6
  }

  /** The first half of the superblock, up to the magic number, and the second. */
  function SuperHead(f: Super, x: Gaps): (b: seq<Byte>)
    requires SuperFits(f) && GapsFit(x)
    ensures |b| == 44
  {
    Enc32(f.inodes) + Enc32(f.blocks) + x.reserved + Enc32(f.firstData) + Enc32(f.logSize) + x.frag + Enc32(f.perGroup)
    + x.frags + Enc32(f.inodesPerGroup)
  }

  function SuperTail(f: Super, x: Gaps): (b: seq<Byte>)
    requires SuperFits(f) && GapsFit(x)
    ensures |b| == 56
  {
    x.mounts + Enc16(f.magic) + x.state + Enc32(f.revision) + x.first + Enc16(f.inodeSize) + x.compat + Enc32(f.incompat)
  }

  lemma HeadFields(f: Super, x: Gaps, a: seq<Byte>, c: seq<Byte>)
    requires SuperFits(f) && GapsFit(x)
    ensures var b := a + SuperHead(f, x) + c;
            && Le32(b, |a|) == f.inodes && Le32(b, |a| + 4) == f.blocks && Le32(b, |a| + 20) == f.firstData
            && Le32(b, |a| + 24) == f.logSize && Le32(b, |a| + 32) == f.perGroup && Le32(b, |a| + 40) == f.inodesPerGroup
  {
    hide Le32, Enc32;
    var b, e1, e2, e3, e4, e5, e6 := a + SuperHead(f, x) + c,
      Enc32(f.inodes), Enc32(f.blocks), Enc32(f.firstData), Enc32(f.logSize), Enc32(f.perGroup), Enc32(f.inodesPerGroup);
    var c5 := x.frags + e6 + c;
    var c4 := x.frag + e5 + c5;
    var c3 := e4 + c4;
    var c2 := x.reserved + e3 + c3;
    assert b == a + e1 + (e2 + c2);
    Field32(a, f.inodes, e2 + c2);
    assert b == (a + e1) + e2 + c2;
    Field32(a + e1, f.blocks, c2);
    var a3 := a + e1 + e2 + x.reserved;
    assert b == a3 + e3 + c3;
    Field32(a3, f.firstData, c3);
    assert b == (a3 + e3) + e4 + c4;
    Field32(a3 + e3, f.logSize, c4);
    var a5 := a3 + e3 + e4 + x.frag;
    assert b == a5 + e5 + c5;
    Field32(a5, f.perGroup, c5);
    assert b == (a5 + e5 + x.frags) + e6 + c;
    Field32(a5 + e5 + x.frags, f.inodesPerGroup, c);
  }

  lemma TailFields(f: Super, x: Gaps, a: seq<Byte>, c: seq<Byte>)
    requires SuperFits(f) && GapsFit(x)
    ensures var b := a + SuperTail(f, x) + c;
            && Le16(b, |a| + 12) == f.magic && Le32(b, |a| + 32) == f.revision
            && Le16(b, |a| + 44) == f.inodeSize && Le32(b, |a| + 52) == f.incompat
  {
    hide Le16, Le32, Enc16, Enc32;
    var b, e1, e2, e3, e4 := a + SuperTail(f, x) + c, Enc16(f.magic), Enc32(f.revision), Enc16(f.inodeSize), Enc32(f.incompat);
    var c3 := x.compat + e4 + c;
    var c2 := x.first + e3 + c3;
    var c1 := x.state + e2 + c2;
    assert b == (a + x.mounts) + e1 + c1;
    Field16(a + x.mounts, f.magic, c1);
    var a2 := a + x.mounts + e1 + x.state;
    assert b == a2 + e2 + c2;
    Field32(a2, f.revision, c2);
    var a3 := a2 + e2 + x.first;
    assert b == a3 + e3 + c3;
    Field16(a3, f.inodeSize, c3);
    var a4 := a3 + e3 + x.compat;
    assert b == a4 + e4 + c;
    Field32(a4, f.incompat, c);
  }

  function Pow2(n: nat): nat {
    if n == 0 then 1 else 2 * Pow2(n - 1)
  }

  lemma BlockSizePow(log: nat)
    requires log <= 6
    ensures BlockSize(log) == 1024 * Pow2(log)
  {
    assert Pow2(1) == 2 && Pow2(2) == 4 && Pow2(3) == 8 && Pow2(4) == 16 && Pow2(5) == 32 && Pow2(6) == 64;
  }

  /** The inodes of the original revision have 128 bytes. */
  function InodeSizeOf(f: Super): nat {
    if f.revision == 0 || f.inodeSize == 0 then 128 else f.inodeSize
  }

  /** What was written to the superblock, after 1024 bytes of boot block, is what is read; and
      which superblocks are accepted. */
  lemma SuperReadBack(image: seq<Byte>, boot: seq<Byte>, f: Super, x: Gaps, rest: seq<Byte>)
    requires SuperFits(f) && GapsFit(x) && |boot| == 1024 && |rest| >= 924
    requires image == boot + SuperHead(f, x) + (SuperTail(f, x) + rest)
    ensures |image| >= 2048 && Le32(image, 1048) == f.logSize
    ensures f.logSize <= 6 ==>
              SuperFs(image) == Fs(image, f.inodes, f.blocks, f.firstData, 1024 * Pow2(f.logSize), f.perGroup, f.inodesPerGroup, InodeSizeOf(f), 0, [])
    ensures SuperOk(image) <==>
              && f.magic == 0xEF53 && f.logSize <= 6 && (f.incompat == 0 || f.incompat == 2)
              && 2 <= f.inodes <= |image| / 128 + 1 && f.firstData < f.blocks && 0 < f.perGroup && 0 < f.inodesPerGroup
              && f.blocks * (1024 * Pow2(f.logSize)) <= |image|
              && 128 <= InodeSizeOf(f) <= 1024 * Pow2(f.logSize) && InodeSizeOf(f) % 4 == 0
  {
    hide Le16, Le32, SuperHead, SuperTail, Pow2;
    HeadFields(f, x, boot, SuperTail(f, x) + rest);
    assert image == (boot + SuperHead(f, x)) + SuperTail(f, x) + rest;
    TailFields(f, x, boot + SuperHead(f, x), rest);
    if f.logSize <= 6 { BlockSizePow(f.logSize); }
  }

  lemma CeilDivLeast(value: nat, divisor: nat, n: nat)
    requires divisor > 0
    ensures CeilDiv(value, divisor) <= n <==> value <= n * divisor
  {
    var r := CeilDiv(value, divisor);
    if r <= n {
      MulMono(r, n, divisor);
    } else {
      MulMono(n, r - 1, divisor);
    }
  }

  /** The number of groups is the smallest that has room for all blocks and all inodes. */
  lemma GroupsLeast(fs: Fs, n: nat)
    requires Checked(fs)
    ensures Groups(fs) <= n <==> fs.blocksCount - fs.firstDataBlock <= n * fs.blocksPerGroup && fs.inodesCount <= n * fs.inodesPerGroup
  {
    CeilDivLeast(fs.blocksCount - fs.firstDataBlock, fs.blocksPerGroup, n);
    CeilDivLeast(fs.inodesCount, fs.inodesPerGroup, n);
  }

  // ----------------------------------------------------------------- file blocks

  /** The pointer of the inode that a slot starts from, and the way down from it. */
  function Root(s: Slot): nat {
    match s
    case Direct(i) => i
    case Single(_) => 12
    case Double(_, _) => 13
    case Triple(_, _, _) => 14
  }

  function Way(s: Slot): seq<nat> {
    match s
    case Direct(_) => []
    case Single(i) => [i]
    case Double(i, j) => [i, j]
    case Triple(i, j, k) => [i, j, k]
  }

  /** The order in which the pointers of the inode, and under each of them its blocks, come. */
  predicate Earlier(s: Slot, t: Slot) {
    Root(s) < Root(t) || (Root(s) == Root(t) && Less(Way(s), Way(t)))
  }

  /** The leaves of the tree under pointer r of an inode: 12 direct ones, then one, two and three
      levels of pointer blocks. */
  lemma Leaves(per: nat, r: nat, way: seq<nat>)
    requires r < 15
    ensures (exists s :: ValidSlot(per, s) && Root(s) == r && Way(s) == way)
       <==> |way| == (if r < 12 then 0 else r - 11) && forall i :: 0 <= i < |way| ==> way[i] < per
  {
    if |way| == (if r < 12 then 0 else r - 11) && forall i :: 0 <= i < |way| ==> way[i] < per {
      var s := if r < 12 then Direct(r) else if r == 12 then Single(way[0]) else if r == 13 then Double(way[0], way[1]) else Triple(way[0], way[1], way[2]);
      assert ValidSlot(per, s) && Root(s) == r && Way(s) == way;
    }
  }

  /** i rows of d and j more are fewer than i' rows and j' more. */
  lemma RowsLess(d: nat, i: nat, j: nat, i': nat, j': nat)
    requires j < d && (i < i' || (i == i' && j < j'))
    ensures Mul(i, d) + j < Mul(i', d) + j'
  {
    if i < i' { Bounds(i', d, i, j); }
  }

  lemma EarlierLess(per: nat, s: Slot, t: Slot)
    requires per > 0 && ValidSlot(per, s) && ValidSlot(per, t) && Earlier(s, t)
    ensures Logical(per, s) < Logical(per, t)
  {
    hide Mul, Less;
    if s.Double? { Bounds(per, per, s.i, s.j); }
    match (s, t) {
      case (Single(i), Single(i')) => LessOne(i, i');
      case (Double(i, j), Double(i', j')) =>
        LessTwo(i, j, i', j');
        RowsLess(per, i, j, i', j');
      case (Triple(i, j, k), Triple(i', j', k')) =>
        LessThree(i, j, k, i', j', k');
        Bounds(per, per, j, k);
        if i == i' && j <= j' { RowsLess(per, j, k, j', k'); }
        RowsLess(Mul(per, per), i, Mul(j, per) + k, i', Mul(j', per) + k');
      case (Direct(i), Direct(i')) => LessNone();
      case _ =>
    }
  }

  lemma Comparable(s: Slot, t: Slot)
    ensures Root(s) == Root(t) && (s.Direct? <==> t.Direct?) ==> s == t || Less(Way(s), Way(t)) || Less(Way(t), Way(s))
  {
    match (s, t) {
      case (Single(i), Single(i')) => LessOne(i, i'); LessOne(i', i);
      case (Double(i, j), Double(i', j')) => LessTwo(i, j, i', j'); LessTwo(i', j', i, j);
      case (Triple(i, j, k), Triple(i', j', k')) => LessThree(i, j, k, i', j', k'); LessThree(i', j', k', i, j, k);
      case _ =>
    }
  }

  /** File blocks use the slots in their order: the direct pointers, then the leaves under the
      single, the double and the triple indirect one.  With SlotBijection this determines SlotOf. */
  lemma SlotOrder(per: nat, a: nat, b: nat)
    requires per > 0 && a < b && SlotOf(per, b).Some?
    ensures SlotOf(per, a).Some? && Earlier(SlotOf(per, a).value, SlotOf(per, b).value)
  {
    hide Mul, Quot, Rem, Less, SlotOf, Logical;
    SlotsValid(per, a);
    SlotsValid(per, b);
    var s, t := SlotOf(per, a).value, SlotOf(per, b).value;
    Comparable(s, t);
    if Earlier(t, s) { EarlierLess(per, t, s); }
  }

  /** Entry by entry down the way from a block. */
  function Chase(fs: Fs, block: Option<nat>, way: seq<nat>): Option<nat>
    requires Geometry(fs)
    decreases |way|
  {
    if way == [] then block else Chase(fs, if block.None? then None else Pointer(fs, block.value, way[0]), way[1..])
  }

  /** A file block is found from its pointer in the inode, going down its way. */
  lemma FollowChases(fs: Fs, inode: Inode, s: Slot)
    requires Geometry(fs) && |inode.blocks| == 15 && ValidSlot(fs.blockSize / 4, s)
    ensures Follow(fs, inode, s) == Chase(fs, if inode.blocks[Root(s)] < fs.blocksCount then Some(inode.blocks[Root(s)]) else None, Way(s))
  {
    hide Geometry;
    var p := inode.blocks[Root(s)];
    var start := if p < fs.blocksCount then Some(p) else None;
    match s
    case Direct(i) =>
    case Single(i) => ChaseOne(fs, start, i);
    case Double(i, j) =>
      assert [i, j][1..] == [j];
      ChaseOne(fs, Then(fs, start, i), j);
    case Triple(i, j, k) =>
      assert [i, j, k][1..] == [j, k] && [j, k][1..] == [k];
      ChaseOne(fs, Then(fs, Then(fs, start, i), j), k);
  }

  lemma ChaseOne(fs: Fs, block: Option<nat>, i: nat)
    requires Geometry(fs)
    ensures Chase(fs, block, [i]) == Then(fs, block, i)
  {
    assert [i][1..] == [];
  }

  /** b is the byte at place `at` of the block that holds file block `logical`, or 0 in a hole. */
  predicate IsByte(fs: Fs, inode: Inode, logical: nat, at: nat, b: Byte)
    requires Geometry(fs) && |inode.blocks| == 15
  {
    && DataBlock(fs, inode, logical).Some?
    && var block := DataBlock(fs, inode, logical).value;
       at < |Rest(fs.image, fs.blockSize, block)| && b == if block == 0 then 0 else Rest(fs.image, fs.blockSize, block)[at]
  }

  /** Byte k of a file is in file block k / blockSize, at place k % blockSize. */
  lemma {:induction false} ContentByte(fs: Fs, inode: Inode, n: nat, k: nat)
    requires Geometry(fs) && |inode.blocks| == 15 && Content(fs, inode, n).Some? && k < |Content(fs, inode, n).value|
    ensures IsByte(fs, inode, Quot(k, fs.blockSize), Rem(k, fs.blockSize), Content(fs, inode, n).value[k])
  {
    hide Geometry, Mul, Size, DataBlock, Amount, IsByte, Quot, Rem;
    var m := n - 1;
    var before := Content(fs, inode, m).value;
    if k < |before| {
      ContentByte(fs, inode, m, k);
    } else {
      ContentLength(fs, inode, m);
      ContentLength(fs, inode, n);
      InBlock(fs, m, Size(inode), k);
      BlockByte(fs, inode, m, Amount(Size(inode), fs.blockSize, m), k - |before|);
    }
  }

  /** A byte after the first m blocks and before the end of the next is in that one. */
  lemma InBlock(fs: Fs, m: nat, size: nat, k: nat)
    requires Geometry(fs)
    requires (if size <= Mul(m, fs.blockSize) then size else Mul(m, fs.blockSize)) <= k
    requires k < if size <= Mul(m + 1, fs.blockSize) then size else Mul(m + 1, fs.blockSize)
    ensures Mul(m, fs.blockSize) <= size && Quot(k, fs.blockSize) == m && Rem(k, fs.blockSize) == k - Mul(m, fs.blockSize)
  {
    NextBlock(m, fs.blockSize);
    DivMod(m, k - Mul(m, fs.blockSize), fs.blockSize);
  }

  lemma BlockByte(fs: Fs, inode: Inode, logical: nat, amount: nat, i: nat)
    requires Geometry(fs) && |inode.blocks| == 15 && i < amount <= fs.blockSize
    requires DataBlock(fs, inode, logical).Some?
    ensures IsByte(fs, inode, logical, i, BlockBytes(fs, inode, logical, amount).value[i])
  {
    hide Geometry, Rest, DataBlock, Offset;
    BlockIs(fs, DataBlock(fs, inode, logical).value, amount);
  }

  /** The upper four bits of the mode are the type of the file. */
  lemma ModeIs(inode: Inode, kind: nat, permissions: nat)
    requires permissions < 0x1000 && inode.mode == kind * 0x1000 + permissions
    ensures IsDir(inode) <==> kind == 4
    ensures IsRegular(inode) <==> kind == 8
  {
  }

  /** A regular file has a size of 64 bits in two halves, other files have one of 32 bits. */
  lemma SizeIs(inode: Inode, size: nat)
    requires inode.sizeLow == size % UINT && (IsRegular(inode) ==> inode.sizeHigh == size / UINT) && (!IsRegular(inode) ==> size < UINT)
    ensures Size(inode) == size
  {
  }

  /** What of a directory is in one of its blocks: nothing in a hole. */
  lemma DirBlockIs(fs: Fs, inode: Inode, logical: nat)
    requires Geometry(fs) && |inode.blocks| == 15
    ensures DirBlock(fs, inode, logical).Some? <==> DataBlock(fs, inode, logical).Some?
    ensures DirBlock(fs, inode, logical).Some? ==>
              var block, amount := DataBlock(fs, inode, logical).value, Amount(Size(inode), fs.blockSize, logical);
              && amount <= |Rest(fs.image, fs.blockSize, block)|
              && DirBlock(fs, inode, logical).value == if block == 0 then [] else Rest(fs.image, fs.blockSize, block)[..amount]
  {
    hide Geometry, Rest, DataBlock, Offset, Amount, Size;
    if DataBlock(fs, inode, logical).Some? {
      BlockIs(fs, DataBlock(fs, inode, logical).value, Amount(Size(inode), fs.blockSize, logical));
    }
  }

  // ----------------------------------------------------------------- directory records

  /** A directory record as its writer sees it; `pad` fills it up. */
  datatype Rec = Rec(ino: nat, fileType: Byte, name: seq<Byte>, pad: seq<Byte>)

  function RecLength(r: Rec): nat {
    8 + |r.name| + |r.pad|
  }

  predicate RecFits(fs: Fs, r: Rec) {
    r.ino < UINT && r.ino <= fs.inodesCount && |r.name| < 0x100 && RecLength(r) < 0x10000 && RecLength(r) % 4 == 0
  }

  function RecBytes(fs: Fs, r: Rec): (b: seq<Byte>)
    requires RecFits(fs, r)
    ensures |b| == RecLength(r)
  {
    Enc32(r.ino) + Enc16(RecLength(r)) + [|r.name| as Byte, r.fileType] + r.name + r.pad
  }

  predicate AllFit(fs: Fs, rs: seq<Rec>) {
    forall i :: 0 <= i < |rs| ==> RecFits(fs, rs[i])
  }

  function DirBytes(fs: Fs, rs: seq<Rec>): seq<Byte>
    requires AllFit(fs, rs)
  {
    if rs == [] then [] else RecBytes(fs, rs[0]) + DirBytes(fs, rs[1..])
  }

  /** The records in use, but for those that are left out. */
  function Live(rs: seq<Rec>, noLost: bool): seq<Entry> {
    if rs == [] then []
    else
      var name := CString(rs[0].name);
      (if rs[0].ino != 0 && !Skipped(name, noLost) then [Entry(rs[0].ino, rs[0].fileType, name)] else []) + Live(rs[1..], noLost)
  }

  lemma RecFields(fs: Fs, r: Rec, rest: seq<Byte>)
    requires RecFits(fs, r)
    ensures var b := RecBytes(fs, r) + rest;
            && RecordOk(fs, b, 0) && Le16(b, 4) == RecLength(r)
            && EntryAt(fs, b, 0) == Entry(r.ino, r.fileType, CString(r.name))
  {
    hide Le16, Le32, Enc16, Enc32, CString;
    var b, ino, len := RecBytes(fs, r) + rest, Enc32(r.ino), Enc16(RecLength(r));
    var two := [|r.name| as Byte, r.fileType];
    var tail := two + r.name + r.pad + rest;
    assert b == [] + ino + (len + tail);
    Field32([], r.ino, len + tail);
    assert b == ino + len + tail;
    Field16(ino, RecLength(r), tail);
    assert b[6] == two[0] && b[7] == two[1];
    assert b[8..8 + |r.name|] == r.name;
  }

  lemma LeShift(a: seq<Byte>, b: seq<Byte>, at: nat)
    ensures at + 2 <= |b| ==> Le16(a + b, |a| + at) == Le16(b, at)
    ensures at + 4 <= |b| ==> Le32(a + b, |a| + at) == Le32(b, at)
  {
  }

  /** A record does not depend on what comes before it. */
  lemma RecordShift(fs: Fs, a: seq<Byte>, b: seq<Byte>, at: nat, noLost: bool)
    requires at <= |b|
    ensures RecordOk(fs, a + b, |a| + at) <==> RecordOk(fs, b, at)
    ensures RecordOk(fs, b, at) ==>
              Le16(a + b, |a| + at + 4) == Le16(b, at + 4) && Kept(fs, a + b, |a| + at, noLost) == Kept(fs, b, at, noLost)
  {
    hide Le16, Le32, CString;
    LeShift(a, b, at);
    LeShift(a, b, at + 4);
    var c := a + b;
    if at + 8 <= |b| {
      assert c[|a| + at + 6] == b[at + 6] && c[|a| + at + 7] == b[at + 7];
      if RecordOk(fs, b, at) {
        var n := b[at + 6] as nat;
        assert c[|a| + at + 8..|a| + at + 8 + n] == b[at + 8..at + 8 + n];
      }
    }
  }

  lemma {:induction false} RecordsShift(fs: Fs, a: seq<Byte>, b: seq<Byte>, at: nat, noLost: bool)
    requires at <= |b|
    ensures Records(fs, a + b, |a| + at, noLost) == Records(fs, b, at, noLost)
    decreases |b| - at
  {
    hide Kept, RecordOk;
    if at < |b| {
      RecordShift(fs, a, b, at, noLost);
      if RecordOk(fs, b, at) {
        var next := at + RecordLength(fs, b, at);
        RecordsShift(fs, a, b, next, noLost);
      }
    }
  }

  lemma FirstRecord(fs: Fs, r: Rec, rest: seq<Byte>, noLost: bool)
    requires RecFits(fs, r)
    ensures Records(fs, RecBytes(fs, r) + rest, 0, noLost) == Prepend(Live([r], noLost), Records(fs, rest, 0, noLost))
  {
    hide RecordOk, EntryAt, RecBytes, CString, Skipped;
    RecFields(fs, r, rest);
    RecordsShift(fs, RecBytes(fs, r), rest, 0, noLost);
    var b := RecBytes(fs, r) + rest;
    assert Live([r], noLost) == Kept(fs, b, 0, noLost) by {
      assert [r][1..] == [];
      assert Kept(fs, b, 0, noLost) + [] == Kept(fs, b, 0, noLost);
    }
    assert Records(fs, b, 0, noLost) == Prepend(Kept(fs, b, 0, noLost), Records(fs, b, |RecBytes(fs, r)| + 0, noLost));
  }

  /** A directory block written as records is read as those of them that are in use. */
  lemma {:induction false} RecordsReadBack(fs: Fs, rs: seq<Rec>, noLost: bool)
    requires AllFit(fs, rs)
    ensures Records(fs, DirBytes(fs, rs), 0, noLost) == Some(Live(rs, noLost))
  {
    hide RecordOk, EntryAt, RecBytes, Kept;
    if rs != [] {
      FirstRecord(fs, rs[0], DirBytes(fs, rs[1..]), noLost);
      RecordsReadBack(fs, rs[1..], noLost);
      assert Live(rs, noLost) == Live([rs[0]], noLost) + Live(rs[1..], noLost) by {
        assert [rs[0]][1..] == [];
      }
    } else {
      assert DirBytes(fs, rs) == [];
    }
  }

  /** A well-formed record is the bytes of one. */
  lemma RecordWritten(fs: Fs, b: seq<Byte>) returns (r: Rec)
    requires RecordOk(fs, b, 0)
    ensures RecFits(fs, r) && RecLength(r) == Le16(b, 4) && b == RecBytes(fs, r) + b[RecLength(r)..]
  {
    hide Le16, Le32, Enc16, Enc32;
    var len, n := Le16(b, 4), b[6] as nat;
    r := Rec(Le32(b, 0), b[7], b[8..8 + n], b[8 + n..len]);
    Decoded(b, 0);
    Decoded(b, 4);
    assert b[..len] == b[0..4] + b[4..6] + [b[6], b[7]] + b[8..8 + n] + b[8 + n..len];
    assert b == b[..len] + b[len..];
  }

  /** A directory block is read exactly if it consists of records. */
  lemma {:induction false} RecordsAreWritten(fs: Fs, b: seq<Byte>, noLost: bool) returns (rs: seq<Rec>)
    requires Records(fs, b, 0, noLost).Some?
    ensures AllFit(fs, rs) && DirBytes(fs, rs) == b
    decreases |b|
  {
    hide RecordOk, RecFits, Kept, RecBytes, RecLength, Le16;
    if b == [] {
      rs := [];
      EmptyDir(fs);
    } else {
      var r := RecordWritten(fs, b);
      var len := RecordLength(fs, b, 0);
      RecordsShift(fs, RecBytes(fs, r), b[len..], 0, noLost);
      var more := RecordsAreWritten(fs, b[len..], noLost);
      rs := [r] + more;
      assert rs[1..] == more;
    }
  }

  lemma EmptyDir(fs: Fs)
    ensures AllFit(fs, []) && DirBytes(fs, []) == []
  {
  }

  /** The records in use of all blocks, one after the other. */
  function LiveIn(blocks: seq<seq<Rec>>, noLost: bool): seq<Entry> {
    if blocks == [] then [] else LiveIn(blocks[..|blocks| - 1], noLost) + Live(blocks[|blocks| - 1], noLost)
  }

  /** A directory written as blocks of records is read as those of them that are in use, in order. */
  lemma {:induction false} DirectoryReadBack(fs: Fs, inode: Inode, blocks: seq<seq<Rec>>, noLost: bool)
    requires Geometry(fs) && |inode.blocks| == 15
    requires forall i :: 0 <= i < |blocks| ==> AllFit(fs, blocks[i]) && DirBlock(fs, inode, i) == Some(DirBytes(fs, blocks[i]))
    ensures DirEntries(fs, inode, |blocks|, noLost) == Some(LiveIn(blocks, noLost))
  {
    hide Geometry, DirBlock, AllFit, DirBytes, Records, Live;
    if blocks != [] {
      var n := |blocks| - 1;
      DirectoryReadBack(fs, inode, blocks[..n], noLost);
      RecordsReadBack(fs, blocks[n], noLost);
    }
  }

  // ----------------------------------------------------------------- names

  /** strcmp: at the first difference the smaller byte comes first, and a prefix before the longer name. */
  lemma {:induction false} NotAfterLex(a: Name, b: Name)
    ensures NotAfter(a, b) <==>
              exists k: nat :: k <= |a| && k <= |b| && a[..k] == b[..k] && (k == |a| || (k < |b| && a[k] < b[k]))
  {
    if a == [] {
      assert a[..0] == b[..0];
    } else if b != [] && a[0] == b[0] {
      NotAfterLex(a[1..], b[1..]);
      if k: nat :| k <= |a[1..]| && k <= |b[1..]| && a[1..][..k] == b[1..][..k] && (k == |a[1..]| || (k < |b[1..]| && a[1..][k] < b[1..][k])) {
        assert a[..k + 1] == [a[0]] + a[1..][..k] && b[..k + 1] == [b[0]] + b[1..][..k];
      }
      if k: nat :| k <= |a| && k <= |b| && a[..k] == b[..k] && (k == |a| || (k < |b| && a[k] < b[k])) {
        if k > 0 {
          assert a[1..][..k - 1] == a[..k][1..] && b[1..][..k - 1] == b[..k][1..];
        }
      }
    } else if b != [] && a[0] < b[0] {
      assert a[..0] == b[..0];
    } else {
      forall k: nat | 0 < k <= |a| && k <= |b| ensures a[..k] != b[..k] {
        assert a[..k][0] == a[0] && b[..k][0] == b[0];
      }
    }
  }

  function Ascii(s: string): (b: Name)
    requires forall i :: 0 <= i < |s| ==> s[i] as int < 128
    ensures |b| == |s| && forall i :: 0 <= i < |s| ==> b[i] as int == s[i] as int
  {
    seq(|s|, i requires 0 <= i < |s| => s[i] as int as Byte)
  }

  /** The names that are left out. */
  lemma SkippedIs(name: Name, noLost: bool)
    ensures Skipped(name, noLost) <==> name == Ascii(".") || name == Ascii("..") || (noLost && name == Ascii("lost+found"))
  {
    assert Ascii(".") == [46] && Ascii("..") == [46, 46];
    assert Ascii("lost+found") == [108, 111, 115, 116, 43, 102, 111, 117, 110, 100];
  }

  /** A name ends at its first NUL. */
  lemma {:induction false} CStringIs(b: seq<Byte>)
    ensures CString(b) <= b && (forall i :: 0 <= i < |CString(b)| ==> b[i] != 0)
    ensures |CString(b)| < |b| ==> b[|CString(b)|] == 0
  {
    if b != [] && b[0] != 0 {
      CStringIs(b[1..]);
      assert forall i :: 0 < i < |CString(b)| ==> b[i] == b[1..][i - 1];
    }
  }
}
