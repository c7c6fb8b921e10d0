/** readi, writei and filewrite on CS files: whatever the disk and the size limit allow,
    the file gains exactly the prefix that is reported, and no transaction logs more
    than MAXOPBLOCKS blocks. */
module ContinuousFiles {
  import opened Common
  import opened FileBytes
  import opened Extents
  import opened ContinuousFs

  const MAXOPBLOCKS := 10
  const CHUNK := ((MAXOPBLOCKS - 1 - 1 - 2) / 2) * 512
  const LIMIT := MAXCSBLOCKS * BSIZE

  /** The blocks hold the bytes c, and are as many as c needs. */
  ghost predicate Holds(blocks: seq<nat>, bytes: seq<seq<Byte>>, c: seq<Byte>) {
    && |blocks| == (|c| + BSIZE - 1) / BSIZE
    && (forall i :: 0 <= i < |blocks| ==> blocks[i] < |bytes|)
    && (forall b :: 0 <= b < |bytes| ==> |bytes[b]| == BSIZE)
    && (forall k {:trigger ByteAt(blocks, bytes, k)} :: 0 <= k < |c| ==> ByteAt(blocks, bytes, k) == c[k])
  }

  /** Byte k of a file with these blocks; 0 where there is none. */
  function ByteAt(blocks: seq<nat>, bytes: seq<seq<Byte>>, k: nat): Byte {
    if k / BSIZE < |blocks| && blocks[k / BSIZE] < |bytes| && k % BSIZE < |bytes[blocks[k / BSIZE]]|
    then bytes[blocks[k / BSIZE]][k % BSIZE] else 0
  }

  ghost predicate FileIs(f: CsFile, c: seq<Byte>)
    reads f
  {
    f.Valid() && f.size == |c| && Holds(f.Blocks(), f.bytes, c)
  }

  /** ialloc: a CS file starts out empty. */
  method NewFile(bmapstart: nat, inodeblock: nat, used: seq<bool>, bytes: seq<seq<Byte>>) returns (f: CsFile)
    requires 0 < |used| && used[0] && |bytes| == |used| && forall b :: 0 <= b < |bytes| ==> |bytes[b]| == BSIZE
    ensures fresh(f) && FileIs(f, []) && f.used == used && f.bytes == bytes
  {
    f := new CsFile(bmapstart, inodeblock, used, bytes);
  }

  /** Blocks in use by anyone but the file stay in use and keep their bytes. */
  ghost predicate OthersKept(blocks: seq<nat>, used: seq<bool>, bytes: seq<seq<Byte>>, used': seq<bool>, bytes': seq<seq<Byte>>) {
    && |used'| == |used| == |bytes'| == |bytes|
    && forall b :: 0 <= b < |used| && used[b] && b !in blocks ==> used'[b] && bytes'[b] == bytes[b]
  }

  /** A write inside a mapped block. */
  lemma Overwritten(blocks: seq<nat>, bytes: seq<seq<Byte>>, c: seq<Byte>, off: nat, s: seq<Byte>)
    requires Holds(blocks, bytes, c) && Distinct(blocks) && off <= |c| && off / BSIZE < |blocks|
    requires 0 < |s| && off % BSIZE + |s| <= BSIZE
    ensures var b := blocks[off / BSIZE];
            Holds(blocks, bytes[b := Patch(bytes[b], off % BSIZE, s)], Splice(c, off, s))
  {
    var b := blocks[off / BSIZE];
    var bytes' := bytes[b := Patch(bytes[b], off % BSIZE, s)];
    var c' := Splice(c, off, s);
    forall k | 0 <= k < |c'| ensures ByteAt(blocks, bytes', k) == c'[k] {
      OverwrittenByte(blocks, bytes, c, off, s, k);
    }
  }

  lemma OverwrittenByte(blocks: seq<nat>, bytes: seq<seq<Byte>>, c: seq<Byte>, off: nat, s: seq<Byte>, k: nat)
    requires Holds(blocks, bytes, c) && Distinct(blocks) && off <= |c| && off / BSIZE < |blocks|
    requires 0 < |s| && off % BSIZE + |s| <= BSIZE && k < |Splice(c, off, s)|
    ensures var b := blocks[off / BSIZE];
            ByteAt(blocks, bytes[b := Patch(bytes[b], off % BSIZE, s)], k) == Splice(c, off, s)[k]
  {
    assert k < |c| ==> ByteAt(blocks, bytes, k) == c[k];
    if k / BSIZE != off / BSIZE {
      assert k < |c|;
      assert blocks[k / BSIZE] != blocks[off / BSIZE];
    } else if off <= k < off + |s| {
      assert k % BSIZE - off % BSIZE == k - off;
    } else {
      assert k < |c|;
    }
  }

  /** A write that starts a new block at the end of the file. */
  lemma Extended(blocks: seq<nat>, bytes: seq<seq<Byte>>, c: seq<Byte>, b: nat, s: seq<Byte>)
    requires Holds(blocks, bytes, c) && |c| == |blocks| * BSIZE && b < |bytes| && b !in blocks
    requires 0 < |s| <= BSIZE
    ensures Holds(blocks + [b], bytes[b := Patch(ZeroBytes(), 0, s)], Splice(c, |c|, s))
  {
    var blocks', bytes', c' := blocks + [b], bytes[b := Patch(ZeroBytes(), 0, s)], Splice(c, |c|, s);
    forall k | 0 <= k < |c'| ensures ByteAt(blocks', bytes', k) == c'[k] {
      if k < |c| {
        assert ByteAt(blocks, bytes, k) == c[k];
        assert blocks'[k / BSIZE] == blocks[k / BSIZE] != b;
      } else {
        assert k / BSIZE == |blocks| && k % BSIZE == k - |c|;
      }
    }
  }

  /** Only the bytes of the file's own blocks matter. */
  lemma HoldsFrame(blocks: seq<nat>, used: seq<bool>, bytes: seq<seq<Byte>>, bytes': seq<seq<Byte>>, c: seq<Byte>)
    requires Holds(blocks, bytes, c) && BlocksOk(blocks, used) && UsedKept(used, bytes, bytes')
    requires forall b :: 0 <= b < |bytes'| ==> |bytes'[b]| == BSIZE
    ensures Holds(blocks, bytes', c)
    ensures OthersKept(blocks, used, bytes, used, bytes') && NoLeak(blocks, used, blocks, used)
  {
    forall k | 0 <= k < |c| ensures ByteAt(blocks, bytes', k) == c[k] {
      assert ByteAt(blocks, bytes, k) == c[k];
    }
  }

  // ----------------------------------------------------------------- counting logged blocks

  lemma AtMostTwoMore(s: set<nat>, t: set<nat>, u: nat, v: nat)
    requires t <= s + {u, v}
    ensures |t| <= |s| + 2
  {
    SubsetCard(t, s + {u, v});
    assert s + {u, v} == (s + {u}) + {v};
  }

  // ----------------------------------------------------------------- writei

  /** csbmap has mapped the block of off, at the end of the file or inside it. */
  ghost predicate MappedAt(why: Outcome, addrs: seq<nat>, used: seq<bool>, bytes: seq<seq<Byte>>,
                           addrs': seq<nat>, used': seq<bool>, bytes': seq<seq<Byte>>, off: nat, addr: nat)
  {
    && |addrs| == |addrs'| == NDIRECT + 1
    && (why.Found? ==> off / BSIZE < |BlocksOf(addrs)| && addr == BlocksOf(addrs)[off / BSIZE]
                       && addrs' == addrs && used' == used && bytes' == bytes)
    && (why.Appended? ==> off / BSIZE == |BlocksOf(addrs)| && AppendedTo(addrs, used, bytes, addrs', used', bytes', addr))
  }

  lemma Copied(why: Outcome, addrs: seq<nat>, used: seq<bool>, bytes: seq<seq<Byte>>, addrs': seq<nat>, used': seq<bool>,
               bytes': seq<seq<Byte>>, off: nat, addr: nat, s: seq<Byte>, c: seq<Byte>)
    requires MappedAt(why, addrs, used, bytes, addrs', used', bytes', off, addr) && (why.Found? || why.Appended?)
    requires Holds(BlocksOf(addrs), bytes, c) && BlocksOk(BlocksOf(addrs), used) && |bytes| == |used| && off <= |c|
    requires 0 < |s| && off % BSIZE + |s| <= BSIZE
    ensures addr < |bytes'| && |bytes'[addr]| == BSIZE && |bytes'| == |bytes|
    ensures var bytes'' := bytes'[addr := Patch(bytes'[addr], off % BSIZE, s)];
            && Holds(BlocksOf(addrs'), bytes'', Splice(c, off, s))
            && OthersKept(BlocksOf(addrs), used, bytes, used', bytes'')
            && NoLeak(BlocksOf(addrs), used, BlocksOf(addrs'), used')
  {
    if why.Found? {
      Overwritten(BlocksOf(addrs), bytes, c, off, s);
    } else {
      var blocks := BlocksOf(addrs);
      assert |c| == |blocks| * BSIZE && off == |c| && off % BSIZE == 0;
      Extended(blocks, bytes, c, addr, s);
      assert bytes'[addr := Patch(bytes'[addr], 0, s)] == bytes[addr := Patch(ZeroBytes(), 0, s)];
    }
  }

  /** bmap for a write: at most two more blocks are logged, the mapped one included. */
  method MapBlock(f: CsFile, off: nat) returns (addr: nat, why: Outcome)
    requires f.Valid() && off / BSIZE <= |f.Blocks()|
    modifies f`used, f`bytes, f`addrs, f`logged
    ensures f.Valid() && !why.NonSequential? && !why.ZeroLength?
    ensures addr != 0 <==> why.Found? || why.Appended?
    ensures MappedAt(why, old(f.addrs), old(f.used), old(f.bytes), f.addrs, f.used, f.bytes, off, addr)
    ensures addr == 0 ==> f.addrs == old(f.addrs) && f.used == old(f.used) && UsedKept(old(f.used), old(f.bytes), f.bytes)
    ensures addr != 0 ==> |f.logged + {addr}| <= |old(f.logged)| + 2
    ensures |f.logged| <= |old(f.logged)| + 2
    ensures why.RangeExceeded? ==> off >= LIMIT
    ensures addr == 0 ==> off / BSIZE == |f.Blocks()| && FailedFor(why, f.addrs, f.used)
    ensures old(f.logged) <= f.logged && Recorded(f.bmapstart, old(f.used), old(f.bytes), f.used, f.bytes, f.logged)
  {
    ghost var logged, first := f.logged, FirstFree(f.used);
    addr, why := f.Csbmap(off / BSIZE);
    AtMostTwoMore(logged, f.logged, BitmapBlock(f.bmapstart, first), first);
    if why.Found? {
      AtMostTwoMore(logged, f.logged + {addr}, addr, addr);
    } else if why.Appended? {
      AtMostTwoMore(logged, f.logged + {addr}, BitmapBlock(f.bmapstart, addr), addr);
    }
  }

  /** csbmap failed for a reason that the inode and the bitmap show. */
  ghost predicate Stuck(why: Outcome, addrs: seq<nat>, used: seq<bool>) {
    (why.DiskFull? || why.BlockTooHigh? || why.NoEntries?) && FailedFor(why, addrs, used)
  }

  lemma MappedEnd(blocks: seq<nat>, bytes: seq<seq<Byte>>, c: seq<Byte>, off: nat)
    requires Holds(blocks, bytes, c) && off <= |c|
    ensures off / BSIZE <= |blocks| && (off / BSIZE == |blocks| ==> off == |c| && off % BSIZE == 0)
  {
  }

  /** One iteration of writei. */
  method WriteBlock(f: CsFile, off: nat, s: seq<Byte>, ghost c: seq<Byte>) returns (ok: bool, why: Outcome)
    requires f.Valid() && Holds(f.Blocks(), f.bytes, c) && off <= |c|
    requires 0 < |s| && off % BSIZE + |s| <= BSIZE
    modifies f`used, f`bytes, f`addrs, f`logged
    ensures f.Valid() && OthersKept(old(f.Blocks()), old(f.used), old(f.bytes), f.used, f.bytes)
    ensures |f.logged| <= |old(f.logged)| + 2
    ensures ok ==> Holds(f.Blocks(), f.bytes, Splice(c, off, s))
    ensures !ok ==> f.addrs == old(f.addrs) && f.used == old(f.used) && Holds(f.Blocks(), f.bytes, c)
    ensures !why.NonSequential? && !why.ZeroLength?
    ensures ok <==> why.Found? || why.Appended?
    ensures why.RangeExceeded? ==> off >= LIMIT
    ensures !ok ==> off == |c| && off % BSIZE == 0 && (off < LIMIT ==> Stuck(why, f.addrs, f.used))
    ensures NoLeak(old(f.Blocks()), old(f.used), f.Blocks(), f.used)
    ensures f.addrs == old(f.addrs) || off == |c|
    ensures old(f.logged) <= f.logged && Recorded(f.bmapstart, old(f.used), old(f.bytes), f.used, f.bytes, f.logged)
  {
    hide Packed, TailZero, BlocksOk, Holds, MappedAt, OthersKept, NoLeak, UsedKept, Splice, FailedFor, Patch, Recorded;
    MappedEnd(f.Blocks(), f.bytes, c, off);
    ghost var addrs, used, bytes := f.addrs, f.used, f.bytes;
    var addr;
    addr, why := MapBlock(f, off);
    if addr == 0 {
      HoldsFrame(BlocksOf(addrs), used, bytes, f.bytes, c);
      return false, why;
    }
    Copied(why, addrs, used, bytes, f.addrs, f.used, f.bytes, off, addr, s, c);
    SameFile(why, addrs, used, bytes, f.addrs, f.used, f.bytes, off, addr);
    PokeRecorded(f.bmapstart, used, bytes, f.used, f.bytes, f.logged, addr, Patch(f.bytes[addr], off % BSIZE, s));
    f.bytes := f.bytes[addr := Patch(f.bytes[addr], off % BSIZE, s)];
    f.logged := f.logged + {addr};
    return true, why;
  }

  lemma SameFile(why: Outcome, addrs: seq<nat>, used: seq<bool>, bytes: seq<seq<Byte>>, addrs': seq<nat>, used': seq<bool>,
                 bytes': seq<seq<Byte>>, off: nat, addr: nat)
    requires MappedAt(why, addrs, used, bytes, addrs', used', bytes', off, addr) && (why.Found? || why.Appended?)
    ensures addrs' == addrs || off / BSIZE == |BlocksOf(addrs)|
  {
  }

  lemma PokeRecorded(bmapstart: nat, u: seq<bool>, y: seq<seq<Byte>>, u': seq<bool>, y': seq<seq<Byte>>, logged: set<nat>, b: nat, data: seq<Byte>)
    requires Recorded(bmapstart, u, y, u', y', logged) && b < |y'|
    ensures Recorded(bmapstart, u, y, u', y'[b := data], logged + {b})
  {
  }

  /** A file that has been written to keeps its blocks in place; those it gained were free, and
      no other block was taken. */
  ghost predicate NoLeak(blocks: seq<nat>, used: seq<bool>, blocks': seq<nat>, used': seq<bool>) {
    && blocks <= blocks' && |used'| == |used|
    && (forall b :: b in blocks' ==> b in blocks || (b < |used| && !used[b]))
    && (forall b :: 0 <= b < |used'| && used'[b] ==> used[b] || b in blocks')
  }

  lemma KeptTrans(blocks: seq<nat>, u: seq<bool>, y: seq<seq<Byte>>, blocks1: seq<nat>, u1: seq<bool>, y1: seq<seq<Byte>>,
                  blocks2: seq<nat>, u2: seq<bool>, y2: seq<seq<Byte>>)
    requires OthersKept(blocks, u, y, u1, y1) && NoLeak(blocks, u, blocks1, u1)
    requires OthersKept(blocks1, u1, y1, u2, y2) && NoLeak(blocks1, u1, blocks2, u2)
    ensures OthersKept(blocks, u, y, u2, y2) && NoLeak(blocks, u, blocks2, u2)
  {
    assert forall b :: b in blocks1 ==> b in blocks2;
  }

  /** How many blocks a write of n bytes at off touches. */
  function Touched(off: nat, n: nat): nat {
    Pieces(BSIZE, off, n)
  }

  /** The disk before a write: the file's blocks, the bitmap and all bytes. */
  datatype Before = Before(blocks: seq<nat>, used: seq<bool>, bytes: seq<seq<Byte>>)

  /** The inode is well formed, its file holds d, and nobody else noticed. */
  ghost predicate Intact(used: seq<bool>, bytes: seq<seq<Byte>>, addrs: seq<nat>, w: Before, d: seq<Byte>) {
    && 0 < |used| && used[0] && |bytes| == |used|
    && EntriesOk(addrs) && BlocksOk(BlocksOf(addrs), used) && Holds(BlocksOf(addrs), bytes, d)
    && OthersKept(w.blocks, w.used, w.bytes, used, bytes) && NoLeak(w.blocks, w.used, BlocksOf(addrs), used)
  }

  /** The disk and the inode when a transaction begins or ends. */
  datatype Snap = Snap(used: seq<bool>, bytes: seq<seq<Byte>>, addrs: seq<nat>, size: nat)

  ghost function SnapOf(f: CsFile): Snap
    reads f
  {
    Snap(f.used, f.bytes, f.addrs, f.size)
  }

  /** The file now holds d, after `count` blocks were touched in this transaction, which began
      at t.  All that changed is logged, but the inode, which is written at the end. */
  ghost predicate Progress(f: CsFile, w: Before, t: Snap, d: seq<Byte>, count: nat)
    reads f
  {
    && Intact(f.used, f.bytes, f.addrs, w, d) && |f.logged| <= 2 * count
    && Recorded(f.bmapstart, t.used, t.bytes, f.used, f.bytes, f.logged)
    && |d| >= t.size && (f.addrs == t.addrs || |d| > t.size)
  }

  method WriteStep(f: CsFile, ghost w: Before, ghost t: Snap, off: nat, s: seq<Byte>, ghost d: seq<Byte>, ghost count: nat) returns (ok: bool, why: Outcome)
    requires Progress(f, w, t, d, count) && off <= |d| && off < LIMIT
    requires 0 < |s| && off % BSIZE + |s| <= BSIZE
    modifies f`used, f`bytes, f`addrs, f`logged
    ensures Progress(f, w, t, if ok then Splice(d, off, s) else d, count + 1)
    ensures !ok ==> off == |d| && off % BSIZE == 0 && Stuck(why, f.addrs, f.used)
  {
    hide Recorded, Packed, TailZero;
    ghost var blocks1, used1, bytes1, logged1 := f.Blocks(), f.used, f.bytes, f.logged;
    ok, why := WriteBlock(f, off, s, d);
    RecordedTrans(f.bmapstart, t.used, t.bytes, used1, bytes1, f.used, f.bytes, logged1, f.logged);
    KeptTrans(w.blocks, w.used, w.bytes, blocks1, used1, bytes1, f.Blocks(), f.used, f.bytes);
  }

  /** The loop of writei: it stops early only when csbmap cannot map a block. */
  method WriteLoop(f: CsFile, ghost w: Before, ghost t: Snap, src: seq<Byte>, off: nat, ghost c: seq<Byte>) returns (tot: nat, why: Outcome, ghost count: nat)
    requires Progress(f, w, t, c, 0) && off <= |c| && off + |src| <= LIMIT
    modifies f`used, f`bytes, f`addrs, f`logged
    ensures tot <= |src| && count <= Touched(off, |src|) && Progress(f, w, t, Splice(c, off, src[..tot]), count)
    ensures tot < |src| ==> off + tot >= |c| && (off + tot) % BSIZE == 0 && Stuck(why, f.addrs, f.used)
  {
    hide Progress;
    tot, why, count := 0, Found, 0;
    SpliceNone(c, off);
    assert src[..0] == [];
    while tot < |src|
      invariant 0 <= tot <= |src| && count == Touched(off, tot) && Aligned(off, tot, |src|)
      invariant Progress(f, w, t, Splice(c, off, src[..tot]), count)
    {
      var ok, m;
      ok, why, m := NextPart(f, w, t, src, off, tot, c, count);
      count := count + 1;
      if !ok { return; }
      tot := tot + m;
    }
  }

  /** One iteration of the loop, with its bookkeeping. */
  method NextPart(f: CsFile, ghost w: Before, ghost t: Snap, src: seq<Byte>, off: nat, tot: nat, ghost c: seq<Byte>, ghost count: nat)
    returns (ok: bool, why: Outcome, m: nat)
    requires off <= |c| && off + |src| <= LIMIT && tot < |src| && Aligned(off, tot, |src|) && count == Touched(off, tot)
    requires Progress(f, w, t, Splice(c, off, src[..tot]), count)
    modifies f`used, f`bytes, f`addrs, f`logged
    ensures 0 < m <= |src| - tot && Aligned(off, tot + m, |src|)
    ensures Touched(off, tot + m) == count + 1 <= Touched(off, |src|)
    ensures ok ==> Progress(f, w, t, Splice(c, off, src[..tot + m]), count + 1)
    ensures !ok ==> Progress(f, w, t, Splice(c, off, src[..tot]), count + 1)
    ensures !ok ==> off + tot >= |c| && (off + tot) % BSIZE == 0 && Stuck(why, f.addrs, f.used)
  {
    m := Min(|src| - tot, BSIZE - (off + tot) % BSIZE);
    var s := src[tot..tot + m];
    TouchedNext(off, tot, m, |src|);
    SplicePart(c, off, src, tot, m);
    ok, why := WriteStep(f, w, t, off + tot, s, Splice(c, off, src[..tot]), count);
  }

  lemma SplicePart(c: seq<Byte>, off: nat, src: seq<Byte>, tot: nat, m: nat)
    requires off <= |c| && tot + m <= |src|
    ensures Splice(Splice(c, off, src[..tot]), off + tot, src[tot..tot + m]) == Splice(c, off, src[..tot + m])
  {
    SpliceSplice(c, off, src[..tot], src[tot..tot + m]);
    assert src[..tot] + src[tot..tot + m] == src[..tot + m];
  }

  /** Every iteration but the last ends at a block boundary. */
  predicate Aligned(off: nat, tot: nat, n: nat) {
    tot == n || tot == 0 || (off + tot) % BSIZE == 0
  }

  lemma TouchedNext(off: nat, tot: nat, m: nat, n: nat)
    requires tot < n && m == Min(n - tot, BSIZE - (off + tot) % BSIZE) && Aligned(off, tot, n)
    ensures 0 < m && (off + tot) % BSIZE + m <= BSIZE && Aligned(off, tot + m, n)
    ensures Touched(off, tot + m) == Touched(off, tot) + 1 <= Touched(off, n)
  {
  }

  /** The loop, then the new size if the file has grown. */
  method WriteBytes(f: CsFile, ghost w: Before, ghost t: Snap, src: seq<Byte>, off: nat, ghost c: seq<Byte>) returns (tot: nat, why: Outcome, ghost count: nat)
    requires f.size == |c| == t.size && Progress(f, w, t, c, 0) && off <= |c| && off + |src| <= LIMIT
    modifies f
    ensures tot <= |src| && count <= Touched(off, |src|)
    ensures Written(f, w, t, Splice(c, off, src[..tot]), count)
    ensures tot < |src| ==> off + tot >= |c| && (off + tot) % BSIZE == 0 && Stuck(why, f.addrs, f.used)
  {
    hide Intact;
    tot, why, count := WriteLoop(f, w, t, src, off, c);
    if |src| > 0 && off + tot > f.size {
      f.size := off + tot;
      f.logged := f.logged + {f.inodeblock};
    }
  }

  /** What a transaction from t to t' changed of the bitmap, of blocks and of the inode is logged. */
  ghost predicate AllLogged(bmapstart: nat, inodeblock: nat, t: Snap, t': Snap, logged: set<nat>) {
    && Recorded(bmapstart, t.used, t.bytes, t'.used, t'.bytes, logged)
    && (t'.addrs != t.addrs || t'.size != t.size ==> inodeblock in logged)
  }

  /** The file is d, in content and in size; `count` blocks and perhaps the inode were logged,
      and with them all that the transaction changed. */
  ghost predicate Written(f: CsFile, w: Before, t: Snap, d: seq<Byte>, count: nat)
    reads f
  {
    && Intact(f.used, f.bytes, f.addrs, w, d) && f.size == |d| && |f.logged| <= 2 * count + 1
    && AllLogged(f.bmapstart, f.inodeblock, t, SnapOf(f), f.logged)
  }

  /** writei: -1, or the number of bytes that are now in the file.  It stops before the end of
      src only at LIMIT, or where the file has to grow and csbmap cannot add a block. */
  method WriteI(f: CsFile, ghost w: Before, ghost t: Snap, src: seq<Byte>, off: nat, ghost c: seq<Byte>) returns (r: int, why: Outcome, ghost count: nat)
    requires f.size == |c| == t.size && f.addrs == t.addrs && Progress(f, w, t, c, 0) && off < UINT && |src| < UINT
    modifies f
    ensures -1 <= r <= |src| && count <= Touched(off, |src|)
    ensures off > |c| ==> r == -1 && Written(f, w, t, c, count)
    ensures off <= |c| ==> Written(f, w, t, Splice(c, off, src[..if r < 0 then 0 else r]), count)
    ensures off <= |c| && off + |src| < UINT ==>
              var end := off + if r < 0 then 0 else r;
              end < off + |src| && end < LIMIT ==> end >= |c| && end % BSIZE == 0 && Stuck(why, f.addrs, f.used)
    ensures off <= |c| && off + |src| < UINT ==> (src == [] <==> r == 0)
    ensures off <= |c| && off + |src| >= UINT ==> r == -1
    ensures off <= |c| ==> off + Reported(r) <= LIMIT
  {
    hide Intact;
    if off <= |c| { SpliceNone(c, off); }
    assert src[..0] == [];
    SizeLimit(f.used, f.bytes, f.addrs, w, c);
    if off > f.size || off + |src| >= UINT { return -1, Found, 0; }
    var n := |src|;
    if off + n > LIMIT {
      if off >= LIMIT { return -1, Found, 0; }
      n := LIMIT - off;
    }
    var tot;
    tot, why, count := WriteBytes(f, w, t, src[..n], off, c);
    TouchedMono(off, n, |src|);
    assert src[..n][..tot] == src[..tot];
    if tot == 0 && n > 0 { return -1, why, count; }
    return tot, why, count;
  }

  lemma TouchedMono(off: nat, n: nat, m: nat)
    requires n <= m
    ensures Touched(off, n) <= Touched(off, m)
  {
  }

  /** Twelve runs of 255 blocks bound the size. */
  lemma SizeLimit(used: seq<bool>, bytes: seq<seq<Byte>>, addrs: seq<nat>, w: Before, c: seq<Byte>)
    requires Intact(used, bytes, addrs, w, c)
    ensures |c| <= LIMIT
  {
    DecodeLength(RunsOf(addrs));
  }

  // ----------------------------------------------------------------- readi

  /** readi: the requested bytes, cut off at the end of the file; nothing is allocated. */
  method ReadI(f: CsFile, off: nat, n: nat, ghost c: seq<Byte>) returns (r: int, dst: seq<Byte>)
    requires FileIs(f, c) && off < UINT && n < UINT
    modifies f`used, f`bytes, f`addrs, f`logged
    ensures f.used == old(f.used) && f.bytes == old(f.bytes) && f.addrs == old(f.addrs) && f.logged == old(f.logged)
    ensures off > |c| || off + n >= UINT ==> r == -1 && dst == []
    ensures off <= |c| && off + n < UINT ==>
      var m := if off + n > |c| then |c| - off else n;
      r == m && dst == c[off..off + m]
  {
    hide Holds, Packed, TailZero, BlocksOk;
    dst := [];
    if off > f.size || off + n >= UINT { return -1, []; }
    var want := if off + n > f.size then f.size - off else n;
    var tot := 0;
    while tot < want
      invariant 0 <= tot <= want && dst == c[off..off + tot]
      invariant f.used == old(f.used) && f.bytes == old(f.bytes) && f.addrs == old(f.addrs) && f.logged == old(f.logged)
    {
      var o := off + tot;
      var m := Min(want - tot, BSIZE - o % BSIZE);
      var part := ReadBlock(f, o, m, c);
      assert c[off..o + m] == c[off..o] + c[o..o + m];
      dst := dst + part;
      tot := tot + m;
    }
    return want, dst;
  }

  /** One iteration of readi: csbmap finds the block. */
  method ReadBlock(f: CsFile, o: nat, m: nat, ghost c: seq<Byte>) returns (part: seq<Byte>)
    requires FileIs(f, c) && 0 < m && o + m <= |c| && o % BSIZE + m <= BSIZE
    modifies f`used, f`bytes, f`addrs, f`logged
    ensures f.used == old(f.used) && f.bytes == old(f.bytes) && f.addrs == old(f.addrs) && f.logged == old(f.logged)
    ensures part == c[o..o + m]
  {
    hide Holds, Packed, TailZero;
    SliceOfBlock(f.Blocks(), f.bytes, c, o, m);
    var addr, why := f.Csbmap(o / BSIZE);
    part := f.bytes[addr][o % BSIZE..o % BSIZE + m];
  }

  /** Inside one block the file is a slice of that block. */
  lemma SliceOfBlock(blocks: seq<nat>, bytes: seq<seq<Byte>>, c: seq<Byte>, o: nat, m: nat)
    requires Holds(blocks, bytes, c) && 0 < m && o + m <= |c| && o % BSIZE + m <= BSIZE
    ensures o / BSIZE < |blocks| && blocks[o / BSIZE] < |bytes| && |bytes[blocks[o / BSIZE]]| == BSIZE
    ensures bytes[blocks[o / BSIZE]][o % BSIZE..o % BSIZE + m] == c[o..o + m]
  {
    var part := bytes[blocks[o / BSIZE]][o % BSIZE..o % BSIZE + m];
    forall k | 0 <= k < m ensures part[k] == c[o..o + m][k] {
      assert ByteAt(blocks, bytes, o + k) == c[o + k];
      assert (o + k) / BSIZE == o / BSIZE && (o + k) % BSIZE == o % BSIZE + k;
    }
  }

  // ----------------------------------------------------------------- filewrite

  /** A chunk of at most CHUNK bytes touches at most four blocks. */
  lemma ChunkTouches(off: nat, n: nat)
    requires n <= CHUNK
    ensures 2 * Touched(off, n) + 1 <= MAXOPBLOCKS
  {
  }

  /** A write meant to go up to `want` has got to `end`: all the way, or to the size limit, or to
      where the file, which was `was` bytes long, would need another block and csbmap cannot add one. */
  ghost predicate Stopped(addrs: seq<nat>, used: seq<bool>, was: nat, end: nat, want: nat) {
    end == want || (end == LIMIT && want > LIMIT) || (was <= end < want && end % BSIZE == 0 && CannotGrow(addrs, used))
  }

  /** One transaction of filewrite: begin_op, writei, end_op. */
  method WriteChunk(f: CsFile, ghost w: Before, src: seq<Byte>, off: nat, ghost c: seq<Byte>) returns (r: int)
    requires Intact(f.used, f.bytes, f.addrs, w, c) && f.size == |c| && off < UINT && |src| <= CHUNK
    modifies f
    ensures -1 <= r <= |src| && |f.logged| <= MAXOPBLOCKS && (off > |c| ==> r == -1)
    ensures var d := if off > |c| then c else Splice(c, off, src[..if r < 0 then 0 else r]);
            Intact(f.used, f.bytes, f.addrs, w, d) && f.size == |d|
    ensures off <= |c| ==> Stopped(f.addrs, f.used, |c|, off + Reported(r), off + |src|)
    ensures AllLogged(f.bmapstart, f.inodeblock, old(SnapOf(f)), SnapOf(f), f.logged)
  {
    hide Intact;
    ghost var t := SnapOf(f);
    f.logged := {};
    ChunkTouches(off, |src|);
    SizeLimit(f.used, f.bytes, f.addrs, w, c);
    var why;
    ghost var count;
    r, why, count := WriteI(f, w, t, src, off, c);
  }

  /** The bytes filewrite reports. */
  function Reported(ret: int): nat {
    if ret > 0 then ret else 0
  }

  lemma ChunkSpliced(c: seq<Byte>, off: nat, data: seq<Byte>, i: nat, n1: nat, r: nat)
    requires off <= |c| && i + n1 <= |data| && r <= n1
    ensures Splice(Splice(c, off, data[..i]), off + i, data[i..i + n1][..r]) == Splice(c, off, data[..i + r])
  {
    SplicePart(c, off, data, i, r);
    assert data[i..i + n1][..r] == data[i..i + r];
  }

  /** The file after the first i bytes of data were written at off. */
  function After(c: seq<Byte>, off: nat, data: seq<Byte>, i: nat): seq<Byte>
    requires i <= |data|
  {
    if off > |c| then c else Splice(c, off, data[..i])
  }

  lemma AfterLength(c: seq<Byte>, off: nat, data: seq<Byte>, i: nat)
    requires i <= |data| && off < UINT && (off > |c| ==> i == 0)
    ensures |After(c, off, data, i)| >= |c| && (off <= |c| <==> off + i <= |After(c, off, data, i)|)
  {
  }

  ghost predicate Saved(f: CsFile, w: Before, d: seq<Byte>)
    reads f
  {
    Intact(f.used, f.bytes, f.addrs, w, d) && f.size == |d|
  }

  /** One iteration of filewrite. */
  method NextChunk(f: CsFile, ghost w: Before, data: seq<Byte>, off: nat, i: nat, n1: nat, ghost c: seq<Byte>) returns (r: int)
    requires i + n1 <= |data| && n1 <= CHUNK && off < UINT && Saved(f, w, After(c, off, data, i)) && (off > |c| ==> i == 0)
    modifies f
    ensures -1 <= r <= n1 && |f.logged| <= MAXOPBLOCKS && (off > |c| ==> r == -1)
    ensures Saved(f, w, After(c, off, data, i + Reported(r)))
    ensures off <= |c| ==> Stopped(f.addrs, f.used, |c|, off + i + Reported(r), off + i + n1)
    ensures AllLogged(f.bmapstart, f.inodeblock, old(SnapOf(f)), SnapOf(f), f.logged)
  {
    hide Intact, Splice, CannotGrow;
    ghost var d := After(c, off, data, i);
    SizeLimit(f.used, f.bytes, f.addrs, w, d);
    assert |data[i..i + n1]| == n1;
    AfterLength(c, off, data, i);
    r := WriteChunk(f, w, data[i..i + n1], off + i, d);
    if off <= |c| {
      ChunkSpliced(c, off, data, i, n1, Reported(r));
    }
  }

  /** One transaction: the state before and after it, and the blocks it logged. */
  datatype Tx = Tx(before: Snap, after: Snap, logged: set<nat>)

  /** A sequence of transactions that leads from s to s', each of which logs all that it changes
      and at most MAXOPBLOCKS blocks. */
  ghost predicate Transactions(f: CsFile, txs: seq<Tx>, s: Snap, s': Snap) {
    && (txs == [] ==> s' == s)
    && (txs != [] ==> txs[0].before == s && txs[|txs| - 1].after == s')
    && (forall i :: 0 <= i < |txs| - 1 ==> txs[i].after == txs[i + 1].before)
    && (forall i :: 0 <= i < |txs| ==> TxOk(f.bmapstart, f.inodeblock, txs[i]))
  }

  ghost predicate TxOk(bmapstart: nat, inodeblock: nat, tx: Tx) {
    |tx.logged| <= MAXOPBLOCKS && AllLogged(bmapstart, inodeblock, tx.before, tx.after, tx.logged)
  }

  lemma AnotherTx(f: CsFile, txs: seq<Tx>, s: Snap, tx: Tx)
    requires Transactions(f, txs, s, tx.before) && TxOk(f.bmapstart, f.inodeblock, tx)
    ensures Transactions(f, txs + [tx], s, tx.after)
  {
    hide TxOk;
  }

  method WriteChunks(f: CsFile, ghost w: Before, data: seq<Byte>, n: int, off: nat, ghost c: seq<Byte>)
    returns (i: nat, off': nat, ghost txs: seq<Tx>)
    requires n <= |data| && off < UINT && Saved(f, w, After(c, off, data, 0))
    modifies f
    ensures i <= |data| && (i <= n || i == 0) && off' == off + i && Saved(f, w, After(c, off, data, i))
    ensures off > |c| ==> i == 0
    ensures off <= |c| && n >= 0 ==> Stopped(f.addrs, f.used, |c|, off + i, off + n)
    ensures Transactions(f, txs, old(SnapOf(f)), SnapOf(f))
  {
    hide Saved, After, Transactions, AllLogged;
    i, off', txs := 0, off, [];
    NoTx(f, SnapOf(f));
    while i < n
      invariant i <= |data| && (i <= n || i == 0) && off' == off + i
      invariant Saved(f, w, After(c, off, data, i)) && (off > |c| ==> i == 0)
      invariant Transactions(f, txs, old(SnapOf(f)), SnapOf(f))
      decreases n - i
    {
      var n1 := if n - i > CHUNK then CHUNK else n - i;
      ghost var before := SnapOf(f);
      var r := NextChunk(f, w, data, off, i, n1, c);
      ghost var tx := Tx(before, SnapOf(f), f.logged);
      AnotherTx(f, txs, old(SnapOf(f)), tx);
      txs := txs + [tx];
      if r < 0 { break; }
      off' := off' + r;
      i := i + r;
      if r != n1 { break; }
    }
  }

  lemma NoTx(f: CsFile, s: Snap)
    ensures Transactions(f, [], s, s)
  {
  }

  /** filewrite on a CS inode: the file gains exactly the prefix that is reported, the offset
      advances by exactly that, other files keep their bytes, no block is taken that the file
      does not get, and each transaction logs all that it changes, in at most MAXOPBLOCKS blocks.
      It is short only at the size limit or where csbmap cannot add a block. */
  method FileWrite(f: CsFile, data: seq<Byte>, n: int, off: nat, ghost c: seq<Byte>)
    returns (ret: int, off': nat, ghost txs: seq<Tx>)
    requires FileIs(f, c) && n <= |data| && off < UINT
    modifies f
    ensures ret == n || 0 < ret < n || ret == -1
    ensures Reported(ret) <= |data| && off' == off + Reported(ret)
    ensures off > |c| ==> FileIs(f, c) && (n != 0 ==> ret == -1)
    ensures off <= |c| ==> FileIs(f, Splice(c, off, data[..Reported(ret)]))
    ensures OthersKept(old(f.Blocks()), old(f.used), old(f.bytes), f.used, f.bytes)
    ensures NoLeak(old(f.Blocks()), old(f.used), f.Blocks(), f.used)
    ensures off <= |c| && n >= 0 ==> Stopped(f.addrs, f.used, |c|, off + Reported(ret), off + n)
    ensures n < 0 ==> ret == -1
    ensures Transactions(f, txs, old(SnapOf(f)), SnapOf(f))
  {
    hide FileIs, Saved, OthersKept, NoLeak, Transactions, Stopped, Splice;
    ghost var w := StartSaved(f, c);
    AfterNothing(c, off, data);
    var i;
    i, off', txs := WriteChunks(f, w, data, n, off, c);
    SavedIs(f, w, After(c, off, data, i));
    ret := if i == n then n else if i > 0 then i else -1;
  }

  lemma StartSaved(f: CsFile, c: seq<Byte>) returns (w: Before)
    requires FileIs(f, c)
    ensures |f.addrs| == NDIRECT + 1 && w == Before(f.Blocks(), f.used, f.bytes) && Saved(f, w, c)
  {
    w := Before(f.Blocks(), f.used, f.bytes);
  }

  lemma SavedIs(f: CsFile, w: Before, d: seq<Byte>)
    requires Saved(f, w, d)
    ensures FileIs(f, d) && |f.addrs| == NDIRECT + 1
    ensures OthersKept(w.blocks, w.used, w.bytes, f.used, f.bytes) && NoLeak(w.blocks, w.used, f.Blocks(), f.used)
  {
  }

  lemma AfterNothing(c: seq<Byte>, off: nat, data: seq<Byte>)
    ensures After(c, off, data, 0) == c
  {
    assert data[..0] == [];
    if off <= |c| { SpliceNone(c, off); }
  }
}
