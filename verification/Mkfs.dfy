/** mkfs of the lazy-allocation tree: it numbers blocks with a counter instead of a
    bitmap, and must leave an image on which the kernel's own invariants hold.

    A read of a block past the end of the image ends mkfs; here that is ok == false. */
module Mkfs {
  import opened Common
  import opened FileBytes
  import opened InodeTree
  import opened MultiLevelFs
  import opened MultiLevelFiles

  class Image {
    const nmeta: nat
    var words: seq<seq<nat>>
    var bytes: seq<seq<Byte>>
    var addrs: seq<seq<nat>>
    var size: seq<nat>
    var freeblock: nat

    /** The image after ftruncate: all zeros, blocks counted from the end of the metadata, and
        every inode an empty file. */
    constructor (nblocks: nat, nmeta: nat, ninodes: nat)
      requires 1 <= nmeta <= nblocks
      ensures Valid() && |addrs| == ninodes && freeblock == nmeta && |words| == nblocks && this.nmeta == nmeta
      ensures forall ino :: 0 <= ino < ninodes ==> Holds(Tree(), bytes, ino, []) && size[ino] == 0
    {
      this.nmeta, freeblock := nmeta, nmeta;
      words, bytes := seq(nblocks, b => Zeros()), seq(nblocks, b => ZeroBytes());
      addrs, size := seq(ninodes, i => seq(NADDRS, j => 0)), seq(ninodes, i => 0);
      new;
      FreshOwned(Tree());
      forall ino | 0 <= ino < ninodes ensures Holds(Tree(), bytes, ino, []) {
        EmptyFile(Tree(), bytes, ino);
      }
    }

    /** The image as the kernel will see it, the bitmap being the blocks below freeblock. */
    ghost function Tree(): Fs
      reads this
    {
      Fs(words, addrs, BelowMap(|words|, freeblock), nmeta)
    }

    ghost predicate Valid()
      reads this
    {
      && Owned(Tree()) && BytesOk(Tree(), bytes) && |size| == |addrs|
      && nmeta <= freeblock <= |words|
      && (forall b :: freeblock <= b < |words| ==> words[b] == Zeros() && bytes[b] == ZeroBytes())
    }

    /** freeblock++ into a slot of the inode, if it is empty. */
    method RootBlock(ino: nat, slot: nat, ghost target: Pos) returns (ok: bool, addr: nat)
      requires Valid() && ino < |addrs| && slot < NADDRS && target.ino == ino && target.slot == slot
      modifies this`addrs, this`freeblock
      ensures Valid() && Grown(old(Tree()), Tree(), target) && |addrs| == |old(addrs)| && old(freeblock) <= freeblock
      ensures ok ==> addr != 0 && At(Tree(), Prefix(target, 0)) == addr
      ensures !ok ==> freeblock == |words| && At(Tree(), Prefix(target, 0)) == 0
    {
      assert Prefix(target, 0) == Pos(ino, slot, []);
      ghost var fs := Tree();
      if addrs[ino][slot] == 0 {
        if freeblock >= |words| { return false, 0; }
        GrowRootOwned(fs, ino, slot, freeblock);
        FreeNotAt(fs, freeblock, Pos(ino, slot, []));
        var entry: seq<nat> := addrs[ino][slot := freeblock];
        addrs := addrs[ino := entry];
        freeblock := freeblock + 1;
        BelowNext(|words|, freeblock - 1);
        assert Tree() == GrowRoot(fs, ino, slot, freeblock - 1);
      }
      return true, addrs[ino][slot];
    }

    /** One child pointer of an index block, allocated if needed. */
    method IndexBlock(ghost p: Pos, parent: nat, index: nat, ghost target: Pos) returns (ok: bool, addr: nat)
      requires Valid() && ValidPos(Tree(), p) && |p.path| < Level(p.slot) && index < NINDIRECT
      requires parent != 0 && At(Tree(), p) == parent
      requires target.ino == p.ino && target.slot == p.slot && p.path + [index] <= target.path
      modifies this`words, this`freeblock
      ensures Valid() && Grown(old(Tree()), Tree(), target) && old(freeblock) <= freeblock
      ensures ok ==> addr != 0 && At(Tree(), Below(p, index)) == addr
      ensures !ok ==> freeblock == |words| && At(Tree(), Below(p, index)) == 0
    {
      ghost var fs := Tree();
      assert Below(p, index).path[..|p.path|] == p.path;
      UsedBelow(fs, freeblock, p);
      assert At(fs, Below(p, index)) == words[parent][index];
      if words[parent][index] == 0 {
        if freeblock >= |words| { return false, 0; }
        NewChild(p, parent, index, target);
      }
      return true, words[parent][index];
    }

    /** freeblock++ into an empty entry of an index block. */
    method NewChild(ghost p: Pos, parent: nat, index: nat, ghost target: Pos)
      requires Valid() && ValidPos(Tree(), p) && |p.path| < Level(p.slot) && index < NINDIRECT && freeblock < |words|
      requires 0 < parent < freeblock && At(Tree(), p) == parent && At(Tree(), Below(p, index)) == 0
      requires target.ino == p.ino && target.slot == p.slot && p.path + [index] <= target.path
      modifies this`words, this`freeblock
      ensures Valid() && Grown(old(Tree()), Tree(), target) && old(freeblock) < freeblock && |words| == |old(words)|
      ensures |words[parent]| == NINDIRECT && words[parent][index] != 0 && At(Tree(), Below(p, index)) == words[parent][index]
    {
      ghost var fs := Tree();
      GrowChildOwned(fs, p, index, freeblock);
      FreeNotAt(fs, freeblock, p);
      var entries: seq<nat> := words[parent][index := freeblock];
      words := words[parent := entries];
      freeblock := freeblock + 1;
      BelowNext(|words|, freeblock - 1);
      assert Tree() == GrowChild(fs, parent, index, freeblock - 1);
    }

    method Follow(ghost target: Pos, ino: nat, slot: nat, path: seq<nat>) returns (ok: bool, addr: nat)
      requires Valid() && ino < |addrs| && slot < NADDRS && ValidPath(path, Level(slot))
      requires target == Pos(ino, slot, path)
      modifies this`words, this`addrs, this`freeblock
      ensures Valid() && Grown(old(Tree()), Tree(), target) && |addrs| == |old(addrs)| && old(freeblock) <= freeblock
      ensures ok ==> addr != 0 && At(Tree(), target) == addr
      ensures !ok ==> freeblock == |words| && At(Tree(), target) == 0
    {
      hide InRange, Injective, BitmapExact, BytesOk, Grown;
      ghost var fs0 := Tree();
      ok, addr := RootBlock(ino, slot, target);
      AncestorsMapped(Tree(), target, 0);
      var depth := 0;
      while ok && depth < |path|
        invariant 0 <= depth <= |path|
        invariant Valid() && Grown(fs0, Tree(), target) && |addrs| == |old(addrs)| && old(freeblock) <= freeblock
        invariant ok ==> addr != 0 && At(Tree(), Prefix(target, depth)) == addr
        invariant !ok ==> freeblock == |words| && At(Tree(), target) == 0
        decreases |path| - depth, ok
      {
        ok, addr := Descend(fs0, target, depth, addr, path[depth]);
        if ok { depth := depth + 1; }
      }
      assert ok ==> Prefix(target, depth) == target;
    }

    /** One more level towards a target position. */
    method Descend(ghost fs0: Fs, ghost target: Pos, ghost depth: nat, a: nat, j: nat) returns (ok: bool, addr: nat)
      requires Valid() && ValidPos(Tree(), target) && depth < |target.path| && j == target.path[depth]
      requires a != 0 && At(Tree(), Prefix(target, depth)) == a && Grown(fs0, Tree(), target)
      modifies this`words, this`freeblock
      ensures Valid() && Grown(fs0, Tree(), target) && old(freeblock) <= freeblock
      ensures ok ==> addr != 0 && At(Tree(), Prefix(target, depth + 1)) == addr
      ensures !ok ==> freeblock == |words| && At(Tree(), target) == 0
    {
      hide InRange, Injective, BitmapExact, BytesOk, Grown;
      ghost var fs1, p := Tree(), Prefix(target, depth);
      assert Below(p, j) == Prefix(target, depth + 1);
      assert p.path + [j] <= target.path;
      ok, addr := IndexBlock(p, a, j, target);
      GrownTrans(fs0, fs1, Tree(), target, target);
      AncestorsMapped(Tree(), target, depth + 1);
    }

    /** appendblock: the block lands exactly where the kernel's bmap looks for it. */
    method AppendBlock(ino: nat, fbn: nat) returns (ok: bool, addr: nat)
      requires Valid() && ino < |addrs| && fbn < MAXFILE
      modifies this`words, this`addrs, this`freeblock
      ensures Valid() && Grown(old(Tree()), Tree(), Locate(ino, fbn)) && |addrs| == |old(addrs)| && old(freeblock) <= freeblock
      ensures ok ==> addr != 0 && At(Tree(), Locate(ino, fbn)) == addr
      ensures !ok ==> freeblock == |words| && At(Tree(), Locate(ino, fbn)) == 0
    {
      if fbn < NDIRECT {
        ok, addr := Follow(Locate(ino, fbn), ino, fbn, []);
        return;
      }
      var f1 := fbn - NDIRECT;
      if f1 < NSINDIRECT * NINDIRECT {
        ok, addr := Follow(Locate(ino, fbn), ino, NDIRECT + f1 / NINDIRECT, [f1 % NINDIRECT]);
        return;
      }
      var f2 := f1 - NSINDIRECT * NINDIRECT;
      if f2 < NDINDIRECT * NDOUBLE {
        var index, offset := f2 / NDOUBLE, f2 % NDOUBLE;
        ok, addr := Follow(Locate(ino, fbn), ino, NDIRECT + NSINDIRECT + index, [offset / NINDIRECT, offset % NINDIRECT]);
        return;
      }
      var f3 := f2 - NDINDIRECT * NDOUBLE;
      var first, offset := f3 / NDOUBLE, f3 % NDOUBLE;
      ok, addr := Follow(Locate(ino, fbn), ino, NDIRECT + NSINDIRECT + NDINDIRECT,
                         [first, offset / NINDIRECT, offset % NINDIRECT]);
    }

    /** One iteration of iappend. */
    method AppendPart(ino: nat, s: seq<Byte>, ghost c: seq<Byte>) returns (ok: bool)
      requires Valid() && Holds(Tree(), bytes, ino, c) && size[ino] == |c|
      requires |c| / BSIZE < MAXFILE && 0 < |s| && |c| % BSIZE + |s| <= BSIZE
      modifies this`words, this`addrs, this`freeblock, this`bytes
      ensures Valid() && |addrs| == |old(addrs)|
      ensures ok ==> Holds(Tree(), bytes, ino, c + s)
      ensures !ok ==> freeblock == |words| && |c| % BSIZE == 0 && Holds(Tree(), bytes, ino, c)
      ensures forall i, d :: i != ino && Holds(old(Tree()), old(bytes), i, d) ==> Holds(Tree(), bytes, i, d)
      ensures Along(old(Tree()), Tree(), ino, |c| / BSIZE, |c| / BSIZE)
    {
      ghost var t, y := Tree(), bytes;
      var off := size[ino];
      LocateLeaf(ino, off / BSIZE);
      var addr;
      ok, addr := AppendBlock(ino, off / BSIZE);
      GrownAlong(t, Tree(), ino, off / BSIZE);
      if !ok {
        KeptBelow(y, old(freeblock), freeblock);
        assert Mapped(t, ino, off / BSIZE) <==> off / BSIZE * BSIZE < |c|;
        GrownKeeps(t, y, Tree(), bytes, ino, off / BSIZE, ino, c);
        forall i, d | i != ino && Holds(t, y, i, d) ensures Holds(Tree(), bytes, i, d) {
          GrownKeeps(t, y, Tree(), bytes, ino, off / BSIZE, i, d);
        }
        return;
      }
      UsedBelow(Tree(), freeblock, Locate(ino, off / BSIZE));
      bytes := bytes[addr := Patch(bytes[addr], off % BSIZE, s)];
      Appended(t, y, Tree(), bytes, old(freeblock), freeblock, ino, s, c, addr);
    }

    /** iappend: the inode holds its old bytes followed by the new ones. */
    method Iappend(ino: nat, data: seq<Byte>, ghost c: seq<Byte>) returns (ok: bool)
      requires Valid() && Holds(Tree(), bytes, ino, c) && size[ino] == |c| && |c| + |data| <= MAXBYTES
      modifies this
      ensures Valid() && |addrs| == |old(addrs)|
      ensures ok ==> Holds(Tree(), bytes, ino, c + data) && size == old(size)[ino := |c| + |data|]
      ensures !ok ==> freeblock == |words| && StoppedAt(Tree(), bytes, ino, c, |c|, data)
      ensures forall i, d :: i != ino && Holds(old(Tree()), old(bytes), i, d) ==> Holds(Tree(), bytes, i, d)
      ensures Along(old(Tree()), Tree(), ino, |c| / BSIZE, LastBlock(|c|, |data|))
    {
      hide Holds, Along, InRange, Injective, BitmapExact, BytesOk;
      AlongSelf(Tree(), ino, |c| / BSIZE, LastBlock(|c|, |data|));
      HoldsSmall(Tree(), bytes, ino, c);
      ghost var t, y := Tree(), bytes;
      var done := 0;
      assert c + data[..0] == c;
      while done < |data|
        invariant 0 <= done <= |data| && Valid() && |addrs| == |old(addrs)|
        invariant Holds(Tree(), bytes, ino, c + data[..done]) && size == old(size)[ino := |c| + done]
        invariant forall i, d :: i != ino && Holds(t, y, i, d) ==> Holds(Tree(), bytes, i, d)
        invariant Along(t, Tree(), ino, |c| / BSIZE, LastBlock(|c|, |data|))
      {
        var off := size[ino];
        var n1 := Min(|data| - done, (off / BSIZE + 1) * BSIZE - off);
        var s := data[done..done + n1];
        ghost var t1 := Tree();
        ok := AppendPart(ino, s, c + data[..done]);
        AlongTrans(t, t1, Tree(), ino, |c| / BSIZE, LastBlock(|c|, |data|), (|c| + done) / BSIZE);
        if !ok {
          assert Splice(c, |c|, data[..done]) == c + data[..done];
          assert StoppedAfter(Tree(), bytes, ino, c, |c|, data, done);
          return false;
        }
        assert c + data[..done] + s == c + data[..done + n1];
        size := size[ino := off + n1];
        done := done + n1;
      }
      assert data[..done] == data;
      return true;
    }

    /** balloc: the bitmap written to the image marks exactly the blocks below freeblock. */
    method Bitmap() returns (bits: seq<bool>)
      requires Valid()
      ensures bits == BelowMap(|words|, freeblock)
    {
      bits := seq(|words|, i => false);
      var b := 0;
      while b < freeblock
        invariant 0 <= b && |bits| == |words|
        invariant forall c :: 0 <= c < |words| ==> bits[c] == (c < b && c < freeblock)
      {
        var n := if freeblock - b > BPB then BPB else freeblock - b;
        for i := 0 to n
          invariant |bits| == |words|
          invariant forall c :: 0 <= c < |words| ==> bits[c] == (c < b + i)
        {
          bits := bits[b + i := true];
        }
        b := b + BPB;
      }
    }
  }

  function BelowMap(n: nat, limit: nat): (r: seq<bool>)
    ensures |r| == n && forall b :: 0 <= b < n ==> r[b] == (b < limit)
  {
    seq(n, b requires 0 <= b < n => b < limit)
  }

  lemma BelowNext(n: nat, limit: nat)
    requires limit < n
    ensures BelowMap(n, limit + 1) == BelowMap(n, limit)[limit := true]
  {
  }

  lemma UsedBelow(t: Fs, freeblock: nat, p: Pos)
    requires Owned(t) && t.used == BelowMap(|t.words|, freeblock) && ValidPos(t, p) && At(t, p) != 0
    ensures At(t, p) < freeblock && At(t, p) < |t.words|
  {
    assert Reachable(t, At(t, p));
  }

  lemma KeptBelow(y: seq<seq<Byte>>, f: nat, f': nat)
    requires f <= f' && forall b :: f <= b < |y| ==> y[b] == ZeroBytes()
    ensures BytesKept(BelowMap(|y|, f), y, BelowMap(|y|, f'), y)
  {
  }

  /** What one iteration of iappend does to the files. */
  lemma Appended(t: Fs, y: seq<seq<Byte>>, t': Fs, y': seq<seq<Byte>>, f: nat, f': nat, ino: nat, s: seq<Byte>, c: seq<Byte>, addr: nat)
    requires Holds(t, y, ino, c) && Owned(t') && BytesOk(t', y)
    requires t.used == BelowMap(|y|, f) && t'.used == BelowMap(|y|, f') && f <= f'
    requires forall b :: f <= b < |y| ==> y[b] == ZeroBytes()
    requires |t.inodes| == |t'.inodes| && |c| / BSIZE < MAXFILE
    requires 0 < |s| && |c| % BSIZE + |s| <= BSIZE
    requires Mapped(t', ino, |c| / BSIZE) && addr == At(t', Locate(ino, |c| / BSIZE)) && addr < |y|
    requires Grown(t, t', Locate(ino, |c| / BSIZE)) && y' == y[addr := Patch(y[addr], |c| % BSIZE, s)]
    ensures Holds(t', y', ino, c + s)
    ensures forall i, d :: i != ino && Holds(t, y, i, d) ==> Holds(t', y', i, d)
  {
    KeptBelow(y, f, f');
    CopiedIn(t, y, t', y, y', ino, |c|, s, addr);
    WrittenFile(t, y, t', y', ino, |c|, s, c);
    assert Splice(c, |c|, s) == c + s;
    forall i, d | i != ino && Holds(t, y, i, d) ensures Holds(t', y', i, d) {
      OtherFile(t, y, t', y', ino, |c|, s, i, d);
    }
  }

  /** A kernel that boots on the image: its invariant holds, every file mkfs wrote is
      the file the kernel reads, and bmap returns the block appendblock chose. */
  lemma ImageBoots(image: Image, fs: FileSystem, bits: seq<bool>)
    requires image.Valid() && bits == BelowMap(|image.words|, image.freeblock)
    requires fs.nmeta == image.nmeta && fs.words == image.words && fs.bytes == image.bytes
    requires fs.addrs == image.addrs && fs.size == image.size && fs.used == bits
    ensures fs.Valid()
    ensures forall ino: nat, c :: Holds(image.Tree(), image.bytes, ino, c) && image.size[ino] == |c| ==> FileIs(fs, ino, c)
    ensures forall b :: 0 <= b < |fs.used| ==> (fs.used[b] <==> b < fs.nmeta || Reachable(fs.Tree(), b))
  {
    assert fs.Tree() == image.Tree();
  }

  /** mkfs writes its bitmap, and a kernel starts on the image. */
  method Boot(image: Image) returns (fs: FileSystem)
    requires image.Valid()
    ensures fresh(fs) && fs.Valid() && fs.Tree() == image.Tree()
    ensures forall ino: nat, c :: Holds(image.Tree(), image.bytes, ino, c) && image.size[ino] == |c| ==> FileIs(fs, ino, c)
  {
    var bits := image.Bitmap();
    fs := new FileSystem(image.nmeta, bits, image.words, image.bytes, image.addrs, image.size);
    ImageBoots(image, fs, bits);
  }
}
