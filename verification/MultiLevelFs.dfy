/** The block layer of the lazy-allocation kernel's fs.c: bitmap, bmap on the
    multi-level tree, recursive freeing, and file reads and writes on top of them.

    A disk block is kept in two views, as index words and as data bytes; balloc
    clears both, and the ownership invariant makes every block be used through one
    of them only.  balloc's panic is the result ok == false. */
module MultiLevelFs {
  import opened FileBytes
  import opened InodeTree

  /** Blocks in use keep their bytes, new ones come zeroed. */
  ghost predicate BytesKept(used: seq<bool>, bytes: seq<seq<Byte>>, used': seq<bool>, bytes': seq<seq<Byte>>) {
    && |used| == |bytes| == |used'| == |bytes'|
    && (forall b :: 0 <= b < |used| && used[b] ==> used'[b] && bytes'[b] == bytes[b])
    && (forall b :: 0 <= b < |used| && !used[b] && used'[b] ==> bytes'[b] == ZeroBytes())
  }

  lemma BytesKeptTrans(u: seq<bool>, y: seq<seq<Byte>>, u1: seq<bool>, y1: seq<seq<Byte>>,
                       u2: seq<bool>, y2: seq<seq<Byte>>)
    requires BytesKept(u, y, u1, y1) && BytesKept(u1, y1, u2, y2)
    ensures BytesKept(u, y, u2, y2)
  {
  }

  class FileSystem {
    const nmeta: nat
    var used: seq<bool>
    var words: seq<seq<nat>>
    var bytes: seq<seq<Byte>>
    /** ip->addrs and ip->size, by inode number. */
    var addrs: seq<seq<nat>>
    var size: seq<nat>

    /** The kernel's view of a disk. */
    constructor (nmeta: nat, used: seq<bool>, words: seq<seq<nat>>, bytes: seq<seq<Byte>>, addrs: seq<seq<nat>>, size: seq<nat>)
      ensures this.nmeta == nmeta && this.used == used && this.words == words && this.bytes == bytes
      ensures this.addrs == addrs && this.size == size
    {
      this.nmeta, this.used, this.words, this.bytes, this.addrs, this.size := nmeta, used, words, bytes, addrs, size;
    }

    ghost function Tree(): Fs
      reads this
    {
      Fs(words, addrs, used, nmeta)
    }

    ghost predicate Sized()
      reads this
    {
      |bytes| == |used| && |size| == |addrs| && forall b :: 0 <= b < |bytes| ==> |bytes[b]| == BSIZE
    }

    /** Every reachable block has one place, and the bitmap is exact. */
    ghost predicate Valid()
      reads this
    {
      Owned(Tree()) && Sized()
    }

    // --------------------------------------------------------------- blocks

    /** First-fit scan of the bitmap, one bitmap block at a time. */
    method Balloc() returns (ok: bool, b: nat)
      requires Shape(Tree()) && Sized()
      modifies this`used, this`words, this`bytes
      ensures !ok ==> AllUsed(used)
                      && used == old(used) && words == old(words) && bytes == old(bytes)
      ensures ok ==>
        && b < |old(used)| && !old(used)[b] && (forall c :: 0 <= c < b ==> old(used)[c])
        && used == old(used)[b := true]
        && words == old(words)[b := Zeros()] && bytes == old(bytes)[b := ZeroBytes()]
    {
      var base := 0;
      while base < |used|
        invariant 0 <= base && used == old(used) && words == old(words) && bytes == old(bytes)
        invariant forall c :: 0 <= c < base && c < |used| ==> used[c]
      {
        var bi := 0;
        while bi < BPB && base + bi < |used|
          invariant 0 <= bi <= BPB && used == old(used) && words == old(words) && bytes == old(bytes)
          invariant forall c :: 0 <= c < base + bi && c < |used| ==> used[c]
        {
          if !used[base + bi] {
            b := base + bi;
            used, words, bytes := used[b := true], words[b := Zeros()], bytes[b := ZeroBytes()];
            return true, b;
          }
          bi := bi + 1;
        }
        base := base + BPB;
      }
      return false, 0;
    }

    /** The panic "freeing free block" is the precondition. */
    method Bfree(b: nat)
      requires b < |used| && used[b]
      modifies this`used
      ensures used == old(used)[b := false]
    {
      used := used[b := false];
    }

    // --------------------------------------------------------------- bmap

    /** One slot of the inode, allocated if empty. */
    method EnsureRoot(ino: nat, slot: nat) returns (ok: bool, addr: nat)
      requires Valid() && ino < |addrs| && slot < NADDRS
      modifies this`used, this`words, this`bytes, this`addrs
      ensures Valid() && Grown(old(Tree()), Tree(), Pos(ino, slot, [])) && BytesKept(old(used), old(bytes), used, bytes)
      ensures ok ==> addr != 0 && At(Tree(), Pos(ino, slot, [])) == addr
      ensures At(old(Tree()), Pos(ino, slot, [])) != 0 ==> ok && Tree() == old(Tree()) && bytes == old(bytes)
      ensures !ok ==> AllUsed(used) && At(Tree(), Pos(ino, slot, [])) == 0
    {
      addr := addrs[ino][slot];
      if addr != 0 { return true, addr; }
      ghost var fs := Tree();
      ok, addr := Balloc();
      if !ok { return false, 0; }
      GrowRootOwned(fs, ino, slot, addr);
      FreeNotAt(fs, addr, Pos(ino, slot, []));
      var entry: seq<nat> := addrs[ino][slot := addr];
      addrs := addrs[ino := entry];
      assert Tree() == GrowRoot(fs, ino, slot, addr);
    }

    /** Entry j of index block a, allocated if empty; p is where a sits in the tree. */
    method EnsureChild(ghost p: Pos, a: nat, j: nat) returns (ok: bool, addr: nat)
      requires Valid() && ValidPos(Tree(), p) && |p.path| < Level(p.slot) && j < NINDIRECT
      requires a != 0 && At(Tree(), p) == a
      modifies this`used, this`words, this`bytes
      ensures Valid() && Grown(old(Tree()), Tree(), Below(p, j)) && BytesKept(old(used), old(bytes), used, bytes)
      ensures ok ==> addr != 0 && At(Tree(), Below(p, j)) == addr
      ensures At(old(Tree()), Below(p, j)) != 0 ==> ok && Tree() == old(Tree()) && bytes == old(bytes)
      ensures !ok ==> AllUsed(used) && At(Tree(), Below(p, j)) == 0
    {
      ghost var fs := Tree();
      assert Below(p, j).path[..|p.path|] == p.path;
      assert At(fs, Below(p, j)) == words[a][j];
      addr := words[a][j];
      if addr != 0 { return true, addr; }
      ok, addr := Balloc();
      if !ok { return false, 0; }
      GrowChildOwned(fs, p, j, addr);
      FreeNotAt(fs, addr, p);
      var entries: seq<nat> := words[a][j := addr];
      words := words[a := entries];
      assert Tree() == GrowChild(fs, a, j, addr);
    }

    /** The first step on the way to a target position. */
    method Enter(ghost target: Pos, ino: nat, slot: nat) returns (ok: bool, addr: nat)
      requires Valid() && ino < |addrs| && slot < NADDRS && target.ino == ino && target.slot == slot
      modifies this`used, this`words, this`bytes, this`addrs
      ensures Valid() && Grown(old(Tree()), Tree(), target) && BytesKept(old(used), old(bytes), used, bytes)
      ensures ok ==> addr != 0 && At(Tree(), Prefix(target, 0)) == addr
      ensures At(old(Tree()), Prefix(target, 0)) != 0 ==> ok && Tree() == old(Tree()) && bytes == old(bytes)
      ensures !ok ==> AllUsed(used) && At(Tree(), Prefix(target, 0)) == 0
    {
      ghost var fs0 := Tree();
      ok, addr := EnsureRoot(ino, slot);
      Widen(fs0, Tree(), Pos(ino, slot, []), target);
      assert Prefix(target, 0).path == [];
    }

    /** One more level towards a target position. */
    method Descend(ghost fs0: Fs, ghost bytes0: seq<seq<Byte>>, ghost target: Pos, ghost depth: nat, ghost mapped: bool, a: nat, j: nat)
      returns (ok: bool, addr: nat)
      requires Valid() && ValidPos(Tree(), target) && depth < |target.path| && j == target.path[depth]
      requires a != 0 && At(Tree(), Prefix(target, depth)) == a
      requires Grown(fs0, Tree(), target) && BytesKept(fs0.used, bytes0, used, bytes)
      requires mapped ==> Tree() == fs0 && bytes == bytes0 && At(fs0, Prefix(target, depth + 1)) != 0
      modifies this`used, this`words, this`bytes
      ensures Valid() && Grown(fs0, Tree(), target) && BytesKept(fs0.used, bytes0, used, bytes)
      ensures ok ==> addr != 0 && At(Tree(), Prefix(target, depth + 1)) == addr
      ensures mapped ==> ok && Tree() == fs0 && bytes == bytes0
      ensures !ok ==> AllUsed(used) && At(Tree(), target) == 0
    {
      ghost var fs1, bytes1, p := Tree(), bytes, Prefix(target, depth);
      assert Below(p, j) == Prefix(target, depth + 1);
      ok, addr := EnsureChild(p, a, j);
      Widen(fs1, Tree(), Below(p, j), target);
      GrownTrans(fs0, fs1, Tree(), target, target);
      BytesKeptTrans(fs0.used, bytes0, fs1.used, bytes1, used, bytes);
      AncestorsMapped(Tree(), target, depth + 1);
    }

    /** From a slot of the inode down a list of indices: the common shape of the
        indirect branches of bmap. */
    method Follow(ghost target: Pos, ino: nat, slot: nat, path: seq<nat>) returns (ok: bool, addr: nat)
      requires Valid() && ino < |addrs| && slot < NADDRS && ValidPath(path, Level(slot))
      requires target == Pos(ino, slot, path)
      modifies this`used, this`words, this`bytes, this`addrs
      ensures Valid() && Grown(old(Tree()), Tree(), target) && BytesKept(old(used), old(bytes), used, bytes)
      ensures ok ==> addr != 0 && At(Tree(), target) == addr
      ensures At(old(Tree()), target) != 0 ==> ok && Tree() == old(Tree()) && bytes == old(bytes)
      ensures !ok ==> AllUsed(used) && At(Tree(), target) == 0
    {
      hide InRange, Injective, BitmapExact, Grown, BytesKept;
      ghost var fs0, bytes0 := Tree(), bytes;
      ghost var mapped := At(fs0, target) != 0;
      AncestorsMapped(fs0, target, 0);
      ok, addr := Enter(target, ino, slot);
      AncestorsMapped(Tree(), target, 0);
      var depth := 0;
      while ok && depth < |path|
        invariant 0 <= depth <= |path|
        invariant Valid() && Grown(fs0, Tree(), target) && BytesKept(fs0.used, bytes0, used, bytes)
        invariant ok ==> addr != 0 && At(Tree(), Prefix(target, depth)) == addr
        invariant mapped ==> ok && Tree() == fs0 && bytes == bytes0
        invariant !ok ==> AllUsed(used) && At(Tree(), target) == 0
        decreases |path| - depth, ok
      {
        AncestorsMapped(fs0, target, depth + 1);
        ok, addr := Descend(fs0, bytes0, target, depth, mapped, addr, path[depth]);
        if ok { depth := depth + 1; }
      }
      assert ok ==> Prefix(target, depth) == target;
    }

    /** The disk block of logical block bn, allocating it and its index blocks on the
        way if needed.  Nothing off the path to bn changes. */
    method Bmap(ino: nat, bn: nat) returns (ok: bool, addr: nat)
      requires Valid() && ino < |addrs|
      modifies this`used, this`words, this`bytes, this`addrs
      ensures Valid() && BytesKept(old(used), old(bytes), used, bytes)
      ensures bn >= MAXFILE ==> !ok && Tree() == old(Tree())
      ensures bn < MAXFILE ==> Grown(old(Tree()), Tree(), Locate(ino, bn))
      ensures ok ==> addr != 0 && At(Tree(), Locate(ino, bn)) == addr
      ensures bn < MAXFILE && At(old(Tree()), Locate(ino, bn)) != 0 ==> ok && Tree() == old(Tree()) && bytes == old(bytes)
      ensures !ok && bn < MAXFILE ==> AllUsed(used) && At(Tree(), Locate(ino, bn)) == 0
    {
      if bn < NDIRECT {
        ok, addr := Follow(Locate(ino, bn), ino, bn, []);
        return;
      }
      var bn1 := bn - NDIRECT;
      if bn1 < NSINDIRECT * NINDIRECT {
        var index, offset := bn1 / NINDIRECT, bn1 % NINDIRECT;
        ok, addr := Follow(Locate(ino, bn), ino, NDIRECT + index, [offset]);
        return;
      }
      var bn2 := bn1 - NSINDIRECT * NINDIRECT;
      if bn2 < NDINDIRECT * NDOUBLE {
        var index, offset := bn2 / NDOUBLE, bn2 % NDOUBLE;
        var first, second := offset / NINDIRECT, offset % NINDIRECT;
        ok, addr := Follow(Locate(ino, bn), ino, NDIRECT + NSINDIRECT + index, [first, second]);
        return;
      }
      var bn3 := bn2 - NDINDIRECT * NDOUBLE;
      if bn3 < NTRIPLE {
        var first, offset := bn3 / NDOUBLE, bn3 % NDOUBLE;
        var second, third := offset / NINDIRECT, offset % NINDIRECT;
        ok, addr := Follow(Locate(ino, bn), ino, NDIRECT + NSINDIRECT + NDINDIRECT, [first, second, third]);
        return;
      }
      return false, 0;
    }

    // --------------------------------------------------------------- freeing

    /** Frees exactly the blocks of the tree at addr, each once. */
    method BfreeIndirect(addr: nat, level: nat)
      requires 1 <= level && Shape(Tree()) && 0 < addr < |words|
      requires SubDistinct(words, addr, level) && SubUsed(words, used, addr, level)
      modifies this`used
      ensures |used| == |old(used)|
      ensures forall b :: 0 <= b < |used| ==> (used[b] <==> old(used)[b] && !InSub(words, addr, level, b))
      decreases level
    {
      var entries := words[addr];
      for i := 0 to NINDIRECT
        invariant |used| == |old(used)|
        invariant forall b :: 0 <= b < |used| ==> (used[b] <==> old(used)[b] && !InFirst(words, addr, level, i, b))
      {
        ghost var e := entries[i];
        assert e == Child(words, addr, i);
        NextEntry(words, old(used), used, addr, level, i);
        if entries[i] != 0 {
          if level == 1 {
            assert InSub(words, e, 0, e) by { assert ValidPath([], 0) && Walk(words, e, []) == e; }
            Bfree(entries[i]);
          } else {
            assert InSub(words, e, level - 1, e) by { assert ValidPath([], level - 1) && Walk(words, e, []) == e; }
            BfreeIndirect(entries[i], level - 1);
          }
        }
        forall b | 0 <= b < |used| ensures used[b] <==> old(used)[b] && !InFirst(words, addr, level, i + 1, b) {
          FirstNext(words, addr, level, i, b);
        }
      }
      forall b | 0 <= b < |used|
        ensures InSub(words, addr, level, b) <==> b == addr || InFirst(words, addr, level, NINDIRECT, b)
      {
        SubSplit(words, addr, level, b);
      }
      RootLeft(words, addr, level);
      Bfree(addr);
    }

    /** One slot of itrunc: free what it holds and clear it. */
    method TruncSlot(ghost fs0: Fs, ino: nat, slot: nat, level: nat)
      requires Valid() && ino < |addrs| && slot < NADDRS && level == Level(slot)
      requires TruncatedTo(fs0, Tree(), ino, slot)
      modifies this`used, this`addrs
      ensures Valid() && TruncatedTo(fs0, Tree(), ino, slot + 1)
    {
      ghost var fs := Tree();
      var addr := addrs[ino][slot];
      OwnedSub(fs, ino, slot);
      if addr == 0 {
        forall q | ValidPos(fs, q) && q.ino == ino && q.slot == slot ensures At(fs, q) == 0 {
          WalkZero(words, q.path);
        }
        return;
      }
      assert At(fs, Pos(ino, slot, [])) == addr;
      if level == 0 {
        assert forall b: nat :: InSub(words, addr, 0, b) <==> b == addr by {
          assert ValidPath([], 0) && Walk(words, addr, []) == addr;
        }
        Bfree(addr);
      } else {
        BfreeIndirect(addr, level);
      }
      var entry := ClearSlot(addrs[ino], slot);
      addrs := addrs[ino := entry];
      ClearedOwned(fs, Tree(), ino, slot);
    }

    method TruncSlots(ino: nat)
      requires Valid() && ino < |addrs|
      modifies this`used, this`addrs
      ensures Valid() && TruncatedTo(old(Tree()), Tree(), ino, NADDRS)
    {
      ghost var fs := Tree();
      for i := 0 to NDIRECT
        invariant Valid() && TruncatedTo(fs, Tree(), ino, i)
      {
        TruncSlot(fs, ino, i, 0);
      }
      for i := 0 to NSINDIRECT
        invariant Valid() && TruncatedTo(fs, Tree(), ino, NDIRECT + i)
      {
        TruncSlot(fs, ino, NDIRECT + i, 1);
      }
      for i := 0 to NDINDIRECT
        invariant Valid() && TruncatedTo(fs, Tree(), ino, NDIRECT + NSINDIRECT + i)
      {
        TruncSlot(fs, ino, NDIRECT + NSINDIRECT + i, 2);
      }
      TruncSlot(fs, ino, NDIRECT + NSINDIRECT + NDINDIRECT, 3);
    }

    /** itrunc: frees exactly the blocks of inode ino, each once, and no other inode changes. */
    method Itrunc(ino: nat)
      requires Valid() && ino < |addrs|
      modifies this`used, this`addrs, this`size
      ensures Valid() && |addrs| == |old(addrs)| && size == old(size)[ino := 0]
      ensures forall q :: ValidPos(old(Tree()), q) ==>
        At(Tree(), q) == (if q.ino == ino then 0 else At(old(Tree()), q))
      ensures forall b :: 0 <= b < |used| ==> (used[b] <==> old(used)[b] && !HeldBy(old(Tree()), ino, b))
    {
      ghost var fs := Tree();
      TruncSlots(ino);
      size := size[ino := 0];
      forall b | 0 <= b < |used| ensures used[b] <==> old(used)[b] && !HeldBy(fs, ino, b) {
        TruncatedBitmap(fs, Tree(), ino, b);
      }
    }
  }

  /** Above a mapped position every position is mapped. */
  lemma {:induction false} AncestorsMapped(fs: Fs, t: Pos, depth: nat)
    requires Shape(fs) && ValidPos(fs, t) && depth <= |t.path|
    ensures At(fs, t) != 0 ==> At(fs, Prefix(t, depth)) != 0
    decreases |t.path| - depth
  {
    if depth == |t.path| {
      assert Prefix(t, depth) == t;
    } else {
      AncestorsMapped(fs, t, depth + 1);
      assert Prefix(t, depth + 1).path[..depth] == Prefix(t, depth).path;
    }
  }

  /** b sits at some position of inode ino. */
  ghost predicate HeldBy(fs: Fs, ino: nat, b: nat)
    requires Shape(fs)
  {
    b != 0 && exists p :: ValidPos(fs, p) && p.ino == ino && At(fs, p) == b
  }

  ghost predicate TruncatedTo(fs: Fs, fs': Fs, ino: nat, n: nat) {
    && Shape(fs) && Shape(fs') && |fs'.inodes| == |fs.inodes| && |fs'.used| == |fs.used| && fs'.nmeta == fs.nmeta
    && forall q :: ValidPos(fs, q) ==> At(fs', q) == (if q.ino == ino && q.slot < n then 0 else At(fs, q))
  }

  lemma TruncatedBitmap(fs: Fs, fs': Fs, ino: nat, b: nat)
    requires Owned(fs) && Owned(fs') && TruncatedTo(fs, fs', ino, NADDRS) && b < |fs.used|
    ensures fs'.used[b] <==> fs.used[b] && !HeldBy(fs, ino, b)
  {
    if HeldBy(fs, ino, b) {
      var p :| ValidPos(fs, p) && p.ino == ino && At(fs, p) == b;
      forall q | ValidPos(fs', q) ensures At(fs', q) != b {
        assert ValidPos(fs, q);
      }
    } else if fs.used[b] && b >= fs.nmeta {
      var p :| ValidPos(fs, p) && At(fs, p) == b;
      assert At(fs', p) == b;
    } else if b >= fs.nmeta {
      forall q | ValidPos(fs', q) ensures At(fs', q) != b {
        FreeNotAt(fs, b, q);
      }
    }
  }

  lemma Widen(fs: Fs, fs': Fs, p: Pos, t: Pos)
    requires Grown(fs, fs', p) && p.ino == t.ino && p.slot == t.slot && p.path <= t.path
    ensures Grown(fs, fs', t)
  {
  }

  /** The subtree of entry i is untouched while the earlier entries are freed. */
  lemma NextEntry(w: Words, used0: seq<bool>, used: seq<bool>, addr: nat, level: nat, i: nat)
    requires level >= 1 && i < NINDIRECT && 0 < addr < |w| && |used| == |used0|
    requires SubDistinct(w, addr, level) && SubUsed(w, used0, addr, level)
    requires forall b :: 0 <= b < |used| ==> (used[b] <==> used0[b] && !InFirst(w, addr, level, i, b))
    ensures SubDistinct(w, Child(w, addr, i), level - 1)
    ensures SubUsed(w, used, Child(w, addr, i), level - 1)
  {
    SubChildDistinct(w, addr, level, i);
    var e, lower := Child(w, addr, i), level - 1;
    forall b: nat | InSub(w, e, lower, b) ensures b < |used| && used[b] {
      var path := SubChild(w, addr, level, i, b);
      SubDisjoint(w, addr, level, i, b);
    }
  }

  /** What the first i + 1 entries hold, and what a zero entry or a data block holds. */
  lemma FirstNext(w: Words, addr: nat, level: nat, i: nat, b: nat)
    requires level >= 1 && i < NINDIRECT
    ensures var e := Child(w, addr, i);
            && (InFirst(w, addr, level, i + 1, b) <==> InFirst(w, addr, level, i, b) || InSub(w, e, level - 1, b))
            && (e == 0 ==> !InSub(w, e, level - 1, b))
            && (level == 1 ==> (InSub(w, e, 0, b) <==> b == e != 0))
  {
    var e := Child(w, addr, i);
    if e == 0 {
      forall path | ValidPath(path, level - 1) ensures Walk(w, e, path) == 0 {
        WalkZero(w, path);
      }
    }
    assert ValidPath([], 0) && Walk(w, e, []) == e;
  }

  lemma RootLeft(w: Words, addr: nat, level: nat)
    requires level >= 1 && 0 < addr && SubDistinct(w, addr, level)
    ensures InSub(w, addr, level, addr) && !InFirst(w, addr, level, NINDIRECT, addr)
  {
    assert ValidPath([], level) && Walk(w, addr, []) == addr;
    forall i: nat | i < NINDIRECT ensures !InSub(w, Child(w, addr, i), level - 1, addr) {
      forall path | ValidPath(path, level - 1) ensures Walk(w, Child(w, addr, i), path) != addr {
        WalkCons(w, addr, i, path);
        assert ValidPath([i] + path, level) && [i] + path != [];
      }
    }
  }
}
