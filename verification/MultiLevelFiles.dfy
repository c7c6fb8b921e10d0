/** readi and writei over the multi-level tree, against files as plain byte sequences. */
module MultiLevelFiles {
  import opened Common
  import opened FileBytes
  import opened InodeTree
  import opened MultiLevelFs

  const MAXBYTES := MAXFILE * BSIZE

  predicate Mapped(t: Fs, ino: nat, bn: nat)
    requires Shape(t) && ino < |t.inodes| && bn < MAXFILE
  {
    LocateLeaf(ino, bn);
    At(t, Locate(ino, bn)) != 0
  }

  ghost predicate BytesOk(t: Fs, y: seq<seq<Byte>>) {
    |y| == |t.used| && forall b :: 0 <= b < |y| ==> |y[b]| == BSIZE
  }

  /** Byte k of a file, through the tree. */
  ghost function FileByte(t: Fs, y: seq<seq<Byte>>, ino: nat, k: nat): Byte
    requires Owned(t) && BytesOk(t, y) && ino < |t.inodes| && k < MAXBYTES && Mapped(t, ino, k / BSIZE)
  {
    LocateLeaf(ino, k / BSIZE);
    y[At(t, Locate(ino, k / BSIZE))][k % BSIZE]
  }

  /** Inode ino holds exactly the bytes c, and maps exactly the blocks they need. */
  ghost predicate Holds(t: Fs, y: seq<seq<Byte>>, ino: nat, c: seq<Byte>) {
    && Owned(t) && BytesOk(t, y) && ino < |t.inodes| && |c| <= MAXBYTES
    && (forall bn :: 0 <= bn < MAXFILE ==> (Mapped(t, ino, bn) <==> bn * BSIZE < |c|))
    && (forall k :: 0 <= k < |c| ==> FileByte(t, y, ino, k) == c[k])
  }

  /** The effect of one iteration of writei on tree and bytes. */
  ghost predicate BlockWritten(t: Fs, y: seq<seq<Byte>>, t': Fs, y': seq<seq<Byte>>, ino: nat, off: nat, s: seq<Byte>)
    requires Owned(t) && Owned(t') && BytesOk(t, y) && BytesOk(t', y')
    requires ino < |t.inodes| == |t'.inodes| && |t.used| == |t'.used| && off / BSIZE < MAXFILE
  {
    LocateLeaf(ino, off / BSIZE);
    var addr := At(t', Locate(ino, off / BSIZE));
    && Grown(t, t', Locate(ino, off / BSIZE))
    && (addr != 0 ==>
          && (forall b :: 0 <= b < |t.used| && t.used[b] && b != addr ==> y'[b] == y[b])
          && (forall j :: 0 <= j < BSIZE ==>
                y'[addr][j] == if off % BSIZE <= j < off % BSIZE + |s| then s[j - off % BSIZE]
                               else if t.used[addr] then y[addr][j] else 0))
  }

  /** Blocks other than the written one keep their place and bytes. */
  lemma OtherBlock(t: Fs, y: seq<seq<Byte>>, t': Fs, y': seq<seq<Byte>>, ino: nat, off: nat, s: seq<Byte>, i: nat, bn: nat)
    requires Owned(t) && Owned(t') && BytesOk(t, y) && BytesOk(t', y')
    requires ino < |t.inodes| == |t'.inodes| && |t.used| == |t'.used| && off / BSIZE < MAXFILE
    requires BlockWritten(t, y, t', y', ino, off, s)
    requires i < |t.inodes| && bn < MAXFILE && (i != ino || bn != off / BSIZE)
    requires Mapped(t', ino, off / BSIZE)
    ensures At(t', Locate(i, bn)) == At(t, Locate(i, bn))
    ensures Mapped(t, i, bn) ==> y'[At(t, Locate(i, bn))] == y[At(t, Locate(i, bn))]
  {
    var target, q := Locate(ino, off / BSIZE), Locate(i, bn);
    LocateLeaf(ino, off / BSIZE);
    LocateLeaf(i, bn);
    assert q != target;
    assert !(q.ino == target.ino && q.slot == target.slot && q.path <= target.path);
    assert At(t', q) == At(t, q);
    if Mapped(t, i, bn) {
      assert At(t', q) != At(t', target);
    }
  }

  lemma OtherFile(t: Fs, y: seq<seq<Byte>>, t': Fs, y': seq<seq<Byte>>, ino: nat, off: nat, s: seq<Byte>, i: nat, c: seq<Byte>)
    requires Holds(t, y, i, c) && Owned(t') && BytesOk(t', y') && i != ino
    requires ino < |t.inodes| == |t'.inodes| && |t.used| == |t'.used| && off / BSIZE < MAXFILE
    requires BlockWritten(t, y, t', y', ino, off, s) && Mapped(t', ino, off / BSIZE)
    ensures Holds(t', y', i, c)
  {
    forall bn | 0 <= bn < MAXFILE ensures Mapped(t', i, bn) <==> bn * BSIZE < |c| {
      assert Mapped(t, i, bn) <==> bn * BSIZE < |c|;
      OtherBlock(t, y, t', y', ino, off, s, i, bn);
    }
    forall k | 0 <= k < |c| ensures FileByte(t', y', i, k) == c[k] {
      OtherBlock(t, y, t', y', ino, off, s, i, k / BSIZE);
      assert FileByte(t, y, i, k) == c[k];
    }
  }

  /** Blocks gained on the way to a leaf of inode ino do not show in any other inode, nor in ino
      itself if the leaf stays empty. */
  lemma GrownKeeps(t: Fs, y: seq<seq<Byte>>, t': Fs, y': seq<seq<Byte>>, ino: nat, bn0: nat, i: nat, c: seq<Byte>)
    requires Holds(t, y, i, c) && Owned(t') && BytesOk(t', y') && ino < |t'.inodes| && bn0 < MAXFILE
    requires Grown(t, t', Locate(ino, bn0)) && BytesKept(t.used, y, t'.used, y')
    requires i != ino || !Mapped(t', ino, bn0)
    ensures Holds(t', y', i, c)
  {
    forall bn | 0 <= bn < MAXFILE ensures Mapped(t', i, bn) <==> bn * BSIZE < |c| {
      assert Mapped(t, i, bn) <==> bn * BSIZE < |c|;
      KeptBlock(t, y, t', y', ino, bn0, i, bn);
    }
    forall k | 0 <= k < |c| ensures FileByte(t', y', i, k) == c[k] {
      KeptBlock(t, y, t', y', ino, bn0, i, k / BSIZE);
      assert FileByte(t, y, i, k) == c[k];
    }
  }

  lemma KeptBlock(t: Fs, y: seq<seq<Byte>>, t': Fs, y': seq<seq<Byte>>, ino: nat, bn0: nat, i: nat, bn: nat)
    requires Owned(t) && Owned(t') && BytesOk(t, y) && BytesOk(t', y') && ino < |t.inodes| && bn0 < MAXFILE
    requires i < |t.inodes| == |t'.inodes| && bn < MAXFILE && (i != ino || bn != bn0 || !Mapped(t', ino, bn0))
    requires Grown(t, t', Locate(ino, bn0)) && BytesKept(t.used, y, t'.used, y')
    ensures At(t', Locate(i, bn)) == At(t, Locate(i, bn))
    ensures Mapped(t, i, bn) ==> y'[At(t, Locate(i, bn))] == y[At(t, Locate(i, bn))]
  {
    var target, q := Locate(ino, bn0), Locate(i, bn);
    LocateLeaf(ino, bn0);
    LocateLeaf(i, bn);
    if q != target {
      assert !(q.ino == target.ino && q.slot == target.slot && q.path <= target.path);
    }
    if Mapped(t, i, bn) {
      assert Reachable(t, At(t, Locate(i, bn)));
    }
  }

  /** Writing s inside one block at off <= |c| turns c into its splice. */
  lemma WrittenFile(t: Fs, y: seq<seq<Byte>>, t': Fs, y': seq<seq<Byte>>, ino: nat, off: nat, s: seq<Byte>, c: seq<Byte>)
    requires Holds(t, y, ino, c) && Owned(t') && BytesOk(t', y') && off <= |c|
    requires ino < |t.inodes| == |t'.inodes| && |t.used| == |t'.used| && off / BSIZE < MAXFILE
    requires 0 < |s| && off % BSIZE + |s| <= BSIZE
    requires BlockWritten(t, y, t', y', ino, off, s) && Mapped(t', ino, off / BSIZE)
    ensures Holds(t', y', ino, Splice(c, off, s))
  {
    var c' := Splice(c, off, s);
    var bn0 := off / BSIZE;
    forall bn | 0 <= bn < MAXFILE ensures Mapped(t', ino, bn) <==> bn * BSIZE < |c'| {
      assert Mapped(t, ino, bn) <==> bn * BSIZE < |c|;
      if bn != bn0 {
        OtherBlock(t, y, t', y', ino, off, s, ino, bn);
      }
    }
    forall k | 0 <= k < |c'| ensures FileByte(t', y', ino, k) == c'[k] {
      WrittenByte(t, y, t', y', ino, off, s, c, k);
    }
  }

  lemma WrittenByte(t: Fs, y: seq<seq<Byte>>, t': Fs, y': seq<seq<Byte>>, ino: nat, off: nat, s: seq<Byte>, c: seq<Byte>, k: nat)
    requires Holds(t, y, ino, c) && Owned(t') && BytesOk(t', y') && off <= |c|
    requires ino < |t.inodes| == |t'.inodes| && |t.used| == |t'.used| && off / BSIZE < MAXFILE
    requires 0 < |s| && off % BSIZE + |s| <= BSIZE && k < |Splice(c, off, s)|
    requires BlockWritten(t, y, t', y', ino, off, s) && Mapped(t', ino, off / BSIZE)
    ensures k < MAXBYTES && Mapped(t', ino, k / BSIZE)
    ensures FileByte(t', y', ino, k) == Splice(c, off, s)[k]
  {
    var bn0 := off / BSIZE;
    if k / BSIZE != bn0 {
      assert k < |c| && Mapped(t, ino, k / BSIZE);
      OtherBlock(t, y, t', y', ino, off, s, ino, k / BSIZE);
      assert FileByte(t, y, ino, k) == c[k];
    } else if !(off <= k < off + |s|) {
      assert k < |c| && Mapped(t, ino, bn0);
      LocateLeaf(ino, bn0);
      assert At(t', Locate(ino, bn0)) == At(t, Locate(ino, bn0));
      assert t.used[At(t, Locate(ino, bn0))];
      assert FileByte(t, y, ino, k) == c[k];
    }
  }

  // ----------------------------------------------------------------- the loops

  /** The file block that holds the last of n bytes at off. */
  function LastBlock(off: nat, n: nat): nat {
    if n == 0 then off / BSIZE else (off + n - 1) / BSIZE
  }

  lemma LastBlockIs(off: nat, n: nat)
    requires n > 0
    ensures LastBlock(off, n) * BSIZE < off + n <= (LastBlock(off, n) + 1) * BSIZE
  {
  }

  /** q lies on the way to one of the file blocks lo to hi of inode ino. */
  ghost predicate OnPath(q: Pos, ino: nat, lo: nat, hi: nat) {
    exists bn :: lo <= bn <= hi && Towards(q, ino, bn)
  }

  predicate Towards(q: Pos, ino: nat, bn: nat) {
    bn < MAXFILE && q.ino == ino && q.slot == Locate(ino, bn).slot && q.path <= Locate(ino, bn).path
  }

  /** The tree has kept all its blocks and gained blocks only on the way to those file blocks. */
  ghost predicate Along(t: Fs, t': Fs, ino: nat, lo: nat, hi: nat) {
    && Shape(t) && Shape(t') && |t'.inodes| == |t.inodes|
    && forall q :: ValidPos(t, q) ==> At(t', q) == At(t, q) || (At(t, q) == 0 && OnPath(q, ino, lo, hi))
  }

  lemma GrownAlong(t: Fs, t': Fs, ino: nat, bn: nat)
    requires bn < MAXFILE && Grown(t, t', Locate(ino, bn))
    ensures Along(t, t', ino, bn, bn)
  {
    LocateLeaf(ino, bn);
    forall q | ValidPos(t, q) && At(t', q) != At(t, q) ensures At(t, q) == 0 && OnPath(q, ino, bn, bn) {
      assert Towards(q, ino, bn);
    }
  }

  lemma AlongTrans(t: Fs, t1: Fs, t2: Fs, ino: nat, lo: nat, hi: nat, bn: nat)
    requires Along(t, t1, ino, lo, hi) && Along(t1, t2, ino, bn, bn) && lo <= bn <= hi
    ensures Along(t, t2, ino, lo, hi)
  {
    forall q | ValidPos(t, q) && At(t2, q) != At(t, q) ensures At(t, q) == 0 && OnPath(q, ino, lo, hi) {
      if At(t1, q) == At(t, q) {
        assert OnPath(q, ino, bn, bn);
        assert Towards(q, ino, bn);
      }
    }
  }

  lemma CopiedIn(t: Fs, y: seq<seq<Byte>>, t': Fs, y1: seq<seq<Byte>>, y': seq<seq<Byte>>, ino: nat, off: nat, s: seq<Byte>, addr: nat)
    requires Owned(t) && Owned(t') && BytesOk(t, y) && BytesOk(t', y1)
    requires ino < |t.inodes| == |t'.inodes| && |t.used| == |t'.used| && off / BSIZE < MAXFILE
    requires off % BSIZE + |s| <= BSIZE && BytesKept(t.used, y, t'.used, y1)
    requires Mapped(t', ino, off / BSIZE) && addr == At(t', Locate(ino, off / BSIZE)) && addr < |y1|
    requires Grown(t, t', Locate(ino, off / BSIZE)) && y' == y1[addr := Patch(y1[addr], off % BSIZE, s)]
    ensures BytesOk(t', y') && BlockWritten(t, y, t', y', ino, off, s)
  {
    assert Reachable(t', addr);
    assert t'.used[addr];
  }

  /** One iteration of writei: map the block, then copy into it. */
  method WriteBlock(fs: FileSystem, ino: nat, off: nat, s: seq<Byte>, ghost c: seq<Byte>) returns (ok: bool)
    requires fs.Valid() && Holds(fs.Tree(), fs.bytes, ino, c) && off <= |c|
    requires off / BSIZE < MAXFILE && 0 < |s| && off % BSIZE + |s| <= BSIZE
    modifies fs`used, fs`words, fs`bytes, fs`addrs
    ensures fs.Valid() && |fs.addrs| == |old(fs.addrs)|
    ensures ok ==> Holds(fs.Tree(), fs.bytes, ino, Splice(c, off, s))
    ensures forall i, d :: i != ino && Holds(old(fs.Tree()), old(fs.bytes), i, d) ==>
              Holds(fs.Tree(), fs.bytes, i, d)
    ensures off < |c| ==> ok && fs.Tree() == old(fs.Tree())
    ensures Along(old(fs.Tree()), fs.Tree(), ino, off / BSIZE, off / BSIZE)
    ensures !ok ==> AllUsed(fs.used) && off == |c| && off % BSIZE == 0 && Holds(fs.Tree(), fs.bytes, ino, c)
  {
    ghost var t, y := fs.Tree(), fs.bytes;
    LocateLeaf(ino, off / BSIZE);
    assert Mapped(t, ino, off / BSIZE) <==> off / BSIZE * BSIZE < |c|;
    var addr;
    ok, addr := fs.Bmap(ino, off / BSIZE);
    GrownAlong(t, fs.Tree(), ino, off / BSIZE);
    if !ok {
      GrownKeeps(t, y, fs.Tree(), fs.bytes, ino, off / BSIZE, ino, c);
      forall i, d | i != ino && Holds(t, y, i, d) ensures Holds(fs.Tree(), fs.bytes, i, d) {
        GrownKeeps(t, y, fs.Tree(), fs.bytes, ino, off / BSIZE, i, d);
      }
      return;
    }
    ghost var y1 := fs.bytes;
    var j := off % BSIZE;
    var data := fs.bytes[addr];
    fs.bytes := fs.bytes[addr := Patch(data, j, s)];
    CopiedIn(t, y, fs.Tree(), y1, fs.bytes, ino, off, s, addr);
    WrittenFile(t, y, fs.Tree(), fs.bytes, ino, off, s, c);
    forall i, d | i != ino && Holds(t, y, i, d) ensures Holds(fs.Tree(), fs.bytes, i, d) {
      OtherFile(t, y, fs.Tree(), fs.bytes, ino, off, s, i, d);
    }
  }

  /** The file content and the size field agree. */
  ghost predicate FileIs(fs: FileSystem, ino: nat, c: seq<Byte>)
    reads fs
  {
    fs.Valid() && Holds(fs.Tree(), fs.bytes, ino, c) && fs.size[ino] == |c|
  }

  /** All other files are as they were. */
  twostate predicate OthersKept(fs: FileSystem, ino: nat)
    reads fs
  {
    && |fs.size| == |old(fs.size)|
    && (forall i :: 0 <= i < |fs.size| && i != ino ==> fs.size[i] == old(fs.size)[i])
    && (forall i, d :: i != ino && Holds(old(fs.Tree()), old(fs.bytes), i, d) ==> Holds(fs.Tree(), fs.bytes, i, d))
  }

  /** writei: the file becomes the splice of the old content, every other file is
      untouched, and whenever the tree grows so does the size, so that the new
      addresses reach the disk inode.  It panics only when the file needs another block and
      none is free; every other file is untouched even then, and this one has the bytes up to
      there.  The tree gains blocks only on the way to the file blocks written. */
  method WriteI(fs: FileSystem, ino: nat, src: seq<Byte>, off: nat, ghost c: seq<Byte>) returns (panic: bool, r: int)
    requires FileIs(fs, ino, c) && off < UINT && |src| < UINT
    modifies fs
    ensures off > |c| || off + |src| >= UINT || off + |src| > MAXBYTES ==>
      !panic && r == -1 && FileIs(fs, ino, c) && OthersKept(fs, ino)
    ensures off <= |c| && off + |src| < UINT && off + |src| <= MAXBYTES && !panic ==>
      r == |src| && FileIs(fs, ino, Splice(c, off, src)) && OthersKept(fs, ino)
    ensures !panic && fs.Tree() != old(fs.Tree()) ==> fs.size[ino] > old(fs.size)[ino]
    ensures Along(old(fs.Tree()), fs.Tree(), ino, off / BSIZE, LastBlock(off, |src|))
    ensures panic ==>
              && fs.Valid() && OthersKept(fs, ino) && AllUsed(fs.used) && off + |src| > Ceil(|c|)
              && off <= |c| && StoppedAt(fs.Tree(), fs.bytes, ino, c, off, src)
  {
    hide Along;
    AlongSelf(fs.Tree(), ino, off / BSIZE, LastBlock(off, |src|));
    if off > fs.size[ino] || off + |src| >= UINT { return false, -1; }
    if off + |src| > MAXBYTES { return false, -1; }
    ghost var t, y := fs.Tree(), fs.bytes;
    var ok := WriteLoop(fs, ino, src, off, c);
    if !ok { return true, -1; }
    if |src| > 0 && off + |src| > fs.size[ino] {
      fs.size := fs.size[ino := off + |src|];
    }
    return false, |src|;
  }

  /** A part of src is in the file, which ends there, at a block boundary. */
  ghost predicate StoppedAt(t: Fs, y: seq<seq<Byte>>, ino: nat, c: seq<Byte>, off: nat, src: seq<Byte>)
    requires off <= |c|
  {
    exists tot :: 0 <= tot < |src| && StoppedAfter(t, y, ino, c, off, src, tot)
  }

  ghost predicate StoppedAfter(t: Fs, y: seq<seq<Byte>>, ino: nat, c: seq<Byte>, off: nat, src: seq<Byte>, tot: nat)
    requires off <= |c| && tot <= |src|
  {
    |c| <= off + tot && (off + tot) % BSIZE == 0 && Holds(t, y, ino, Splice(c, off, src[..tot]))
  }

  lemma WithinWrite(off: nat, tot: nat, n: nat)
    requires tot < n
    ensures off / BSIZE <= (off + tot) / BSIZE <= LastBlock(off, n)
  {
  }

  lemma AlongSelf(t: Fs, ino: nat, lo: nat, hi: nat)
    requires Shape(t)
    ensures Along(t, t, ino, lo, hi)
  {
  }

  method WriteLoop(fs: FileSystem, ino: nat, src: seq<Byte>, off: nat, ghost c: seq<Byte>) returns (ok: bool)
    requires fs.Valid() && Holds(fs.Tree(), fs.bytes, ino, c) && off <= |c| && off + |src| <= MAXBYTES
    modifies fs`used, fs`words, fs`bytes, fs`addrs
    ensures fs.Valid() && |fs.addrs| == |old(fs.addrs)|
    ensures ok ==> Holds(fs.Tree(), fs.bytes, ino, Splice(c, off, src))
    ensures forall i, d :: i != ino && Holds(old(fs.Tree()), old(fs.bytes), i, d) ==>
              Holds(fs.Tree(), fs.bytes, i, d)
    ensures ok ==> fs.Tree() == old(fs.Tree()) || off + |src| > |c|
    ensures Along(old(fs.Tree()), fs.Tree(), ino, off / BSIZE, LastBlock(off, |src|))
    ensures !ok ==> AllUsed(fs.used) && off + |src| > Ceil(|c|) && StoppedAt(fs.Tree(), fs.bytes, ino, c, off, src)
  {
    hide Holds, Along, InRange, Injective, BitmapExact, LastBlock;
    ghost var t, y := fs.Tree(), fs.bytes;
    AlongSelf(t, ino, off / BSIZE, LastBlock(off, |src|));
    var tot := 0;
    assert src[..0] == [];
    SpliceNone(c, off);
    while tot < |src|
      invariant 0 <= tot <= |src| && fs.Valid() && |fs.addrs| == |old(fs.addrs)|
      invariant Holds(fs.Tree(), fs.bytes, ino, Splice(c, off, src[..tot]))
      invariant forall i, d :: i != ino && Holds(t, y, i, d) ==> Holds(fs.Tree(), fs.bytes, i, d)
      invariant fs.Tree() == t || off + tot > |c|
      invariant Along(t, fs.Tree(), ino, off / BSIZE, LastBlock(off, |src|))
    {
      var m := Min(|src| - tot, BSIZE - (off + tot) % BSIZE);
      var s := src[tot..tot + m];
      SpliceSplice(c, off, src[..tot], s);
      assert src[..tot] + s == src[..tot + m];
      ghost var t1 := fs.Tree();
      WithinWrite(off, tot, |src|);
      ok := WriteBlock(fs, ino, off + tot, s, Splice(c, off, src[..tot]));
      AlongTrans(t, t1, fs.Tree(), ino, off / BSIZE, LastBlock(off, |src|), (off + tot) / BSIZE);
      if !ok {
        assert StoppedAfter(fs.Tree(), fs.bytes, ino, c, off, src, tot);
        return false;
      }
      tot := tot + m;
    }
    assert src[..tot] == src;
    return true;
  }

  /** One iteration of readi. */
  method ReadBlock(fs: FileSystem, ino: nat, o: nat, m: nat, ghost c: seq<Byte>) returns (part: seq<Byte>)
    requires fs.Valid() && Holds(fs.Tree(), fs.bytes, ino, c) && 0 < m && o + m <= |c| && o % BSIZE + m <= BSIZE
    modifies fs`used, fs`words, fs`bytes, fs`addrs
    ensures fs.Tree() == old(fs.Tree()) && fs.bytes == old(fs.bytes)
    ensures part == c[o..o + m]
  {
    LocateLeaf(ino, o / BSIZE);
    assert Mapped(fs.Tree(), ino, o / BSIZE) <==> o / BSIZE * BSIZE < |c|;
    BlockBytes(fs.Tree(), fs.bytes, ino, o, m, c);
    var ok, addr := fs.Bmap(ino, o / BSIZE);
    part := fs.bytes[addr][o % BSIZE..o % BSIZE + m];
  }

  lemma HoldsSmall(t: Fs, y: seq<seq<Byte>>, ino: nat, c: seq<Byte>)
    requires Holds(t, y, ino, c)
    ensures ino < |t.inodes| && |c| <= MAXBYTES
  {
  }

  /** readi: returns the requested bytes of the file, cut off at its end, and
      allocates nothing. */
  method ReadI(fs: FileSystem, ino: nat, off: nat, n: nat, ghost c: seq<Byte>) returns (r: int, dst: seq<Byte>)
    requires FileIs(fs, ino, c) && off < UINT && n < UINT
    modifies fs`used, fs`words, fs`bytes, fs`addrs
    ensures fs.Tree() == old(fs.Tree()) && fs.bytes == old(fs.bytes)
    ensures off > |c| || off + n >= UINT ==> r == -1 && dst == []
    ensures off <= |c| && off + n < UINT ==>
      var m := if off + n > |c| then |c| - off else n;
      r == m && dst == c[off..off + m]
  {
    hide Holds;
    HoldsSmall(fs.Tree(), fs.bytes, ino, c);
    dst := [];
    if off > fs.size[ino] || off + n >= UINT { return -1, []; }
    var want := if off + n > fs.size[ino] then fs.size[ino] - off else n;
    var tot := 0;
    while tot < want
      invariant 0 <= tot <= want && fs.Tree() == old(fs.Tree()) && fs.bytes == old(fs.bytes)
      invariant dst == c[off..off + tot]
    {
      var o := off + tot;
      var m := Min(want - tot, BSIZE - o % BSIZE);
      var part := ReadBlock(fs, ino, o, m, c);
      assert c[off..o + m] == c[off..o] + c[o..o + m];
      dst := dst + part;
      tot := tot + m;
    }
    return want, dst;
  }

  /** Inside one block the file is a slice of that block. */
  lemma BlockBytes(t: Fs, y: seq<seq<Byte>>, ino: nat, o: nat, m: nat, c: seq<Byte>)
    requires Holds(t, y, ino, c) && o + m <= |c| && 0 < m && o % BSIZE + m <= BSIZE
    requires o / BSIZE < MAXFILE && Mapped(t, ino, o / BSIZE)
    ensures At(t, Locate(ino, o / BSIZE)) < |y|
    ensures y[At(t, Locate(ino, o / BSIZE))][o % BSIZE..o % BSIZE + m] == c[o..o + m]
  {
    LocateLeaf(ino, o / BSIZE);
    var part := y[At(t, Locate(ino, o / BSIZE))][o % BSIZE..o % BSIZE + m];
    forall k | 0 <= k < m ensures part[k] == c[o..o + m][k] {
      assert FileByte(t, y, ino, o + k) == c[o + k];
      assert (o + k) / BSIZE == o / BSIZE && (o + k) % BSIZE == o % BSIZE + k;
    }
  }

  /** An inode whose thirteen slots are empty is an empty file: what ialloc makes and itrunc leaves. */
  lemma EmptyFile(t: Fs, y: seq<seq<Byte>>, ino: nat)
    requires Owned(t) && BytesOk(t, y) && ino < |t.inodes|
    requires forall slot :: 0 <= slot < NADDRS ==> t.inodes[ino][slot] == 0
    ensures Holds(t, y, ino, [])
  {
    forall bn | 0 <= bn < MAXFILE ensures !Mapped(t, ino, bn) {
      LocateLeaf(ino, bn);
      WalkZero(t.words, Locate(ino, bn).path);
    }
  }
}
