/** The multi-level inode tree: 6 direct, 4 single, 2 double and 1 triple indirect
    pointers.  A position names a place in the tree (inode, slot, path of indices);
    walking the index blocks from the inode gives the disk block at a position, or 0.

    Ownership is injectivity: no two positions hold the same block, and a block is
    marked in the bitmap exactly when it is metadata or sits at some position. */
module InodeTree {
  import opened Common

  const NDIRECT := 6
  const NSINDIRECT := 4
  const NDINDIRECT := 2
  const NADDRS := 13
  const NINDIRECT := 128
  const NDOUBLE := 16384
  const NTRIPLE := 2097152
  const MAXFILE := 2130438

  /** Every disk block read as 128 block numbers. */
  type Words = seq<seq<nat>>

  datatype Pos = Pos(ino: nat, slot: nat, path: seq<nat>)

  /** Index blocks, inode address arrays, bitmap; blocks below nmeta are metadata. */
  datatype Fs = Fs(words: Words, inodes: seq<seq<nat>>, used: seq<bool>, nmeta: nat)

  function Level(slot: nat): nat {
    if slot < NDIRECT then 0
    else if slot < NDIRECT + NSINDIRECT then 1
    else if slot < NDIRECT + NSINDIRECT + NDINDIRECT then 2
    else 3
  }

  predicate Shape(fs: Fs) {
    && 1 <= fs.nmeta <= |fs.used| == |fs.words|
    && (forall b :: 0 <= b < |fs.words| ==> |fs.words[b]| == NINDIRECT)
    && (forall i :: 0 <= i < |fs.inodes| ==> |fs.inodes[i]| == NADDRS)
  }

  predicate ValidPath(path: seq<nat>, level: nat) {
    |path| <= level && forall k :: 0 <= k < |path| ==> path[k] < NINDIRECT
  }

  predicate ValidPos(fs: Fs, p: Pos) {
    p.ino < |fs.inodes| && p.slot < NADDRS && ValidPath(p.path, Level(p.slot))
  }

  function Child(w: Words, a: nat, j: nat): nat {
    if 0 < a < |w| && j < |w[a]| then w[a][j] else 0
  }

  function Walk(w: Words, addr: nat, path: seq<nat>): nat
    decreases |path|
  {
    if path == [] then addr
    else Child(w, Walk(w, addr, path[..|path| - 1]), path[|path| - 1])
  }

  /** The block at a position. */
  function At(fs: Fs, p: Pos): nat
    requires Shape(fs) && ValidPos(fs, p)
  {
    Walk(fs.words, fs.inodes[p.ino][p.slot], p.path)
  }

  function Below(p: Pos, j: nat): Pos {
    p.(path := p.path + [j])
  }

  /** The ancestor of p at a given depth. */
  function Prefix(p: Pos, depth: nat): Pos
    requires depth <= |p.path|
  {
    p.(path := p.path[..depth])
  }

  ghost predicate InRange(fs: Fs)
    requires Shape(fs)
  {
    forall p :: ValidPos(fs, p) && At(fs, p) != 0 ==> fs.nmeta <= At(fs, p) < |fs.used|
  }

  ghost predicate Injective(fs: Fs)
    requires Shape(fs)
  {
    forall p, q :: ValidPos(fs, p) && ValidPos(fs, q) && At(fs, p) != 0 && At(fs, p) == At(fs, q) ==> p == q
  }

  ghost predicate Reachable(fs: Fs, b: nat)
    requires Shape(fs)
  {
    b != 0 && exists p :: ValidPos(fs, p) && At(fs, p) == b
  }

  /** The bitmap is exactly metadata plus reachable blocks. */
  ghost predicate BitmapExact(fs: Fs)
    requires Shape(fs)
  {
    forall b :: 0 <= b < |fs.used| ==> (fs.used[b] <==> b < fs.nmeta || Reachable(fs, b))
  }

  ghost predicate Owned(fs: Fs) {
    Shape(fs) && InRange(fs) && Injective(fs) && BitmapExact(fs)
  }

  // ----------------------------------------------------------------- one allocation

  function Zeros(): (z: seq<nat>)
    ensures |z| == NINDIRECT && forall j :: 0 <= j < NINDIRECT ==> z[j] == 0
  {
    seq(NINDIRECT, j => 0)
  }

  /** The state after a zeroed free block b is stored in entry j of index block a. */
  function GrowChild(fs: Fs, a: nat, j: nat, b: nat): Fs
    requires Shape(fs) && a < |fs.words| && j < NINDIRECT && b < |fs.words| && a != b
  {
    var entries: seq<nat> := fs.words[a][j := b];
    fs.(words := fs.words[b := Zeros()][a := entries], used := fs.used[b := true])
  }

  /** The state after a zeroed free block b is stored in a slot of an inode. */
  function GrowRoot(fs: Fs, ino: nat, slot: nat, b: nat): Fs
    requires Shape(fs) && ino < |fs.inodes| && slot < NADDRS && b < |fs.words|
  {
    var addrs: seq<nat> := fs.inodes[ino][slot := b];
    fs.(words := fs.words[b := Zeros()],
        inodes := fs.inodes[ino := addrs],
        used := fs.used[b := true])
  }

  lemma GrowShape(fs: Fs, a: nat, j: nat, b: nat)
    requires Shape(fs) && a < |fs.words| && j < NINDIRECT && b < |fs.words| && a != b
    ensures Shape(GrowChild(fs, a, j, b))
  {
  }

  ghost predicate Free(fs: Fs, b: nat) {
    b < |fs.used| && !fs.used[b]
  }

  lemma FreeNotAt(fs: Fs, b: nat, q: Pos)
    requires Owned(fs) && Free(fs, b) && ValidPos(fs, q)
    ensures At(fs, q) != b && b != 0
  {
  }

  lemma GrowChildEntry(fs: Fs, a: nat, j: nat, b: nat, x: nat, i: nat)
    requires Shape(fs) && 0 < a < |fs.words| && j < NINDIRECT && 0 < b < |fs.words| && a != b && i < NINDIRECT
    ensures Child(GrowChild(fs, a, j, b).words, x, i)
         == (if x == b then 0 else if x == a && i == j then b else Child(fs.words, x, i))
  {
  }

  /** The walk along one path after entry j of a, which was empty, became the zeroed block b. */
  lemma {:induction false} GrowWalk(fs: Fs, addr: nat, path: seq<nat>, a: nat, j: nat, b: nat, home: seq<nat>)
    requires Shape(fs) && ValidPath(path, |path|) && j < NINDIRECT
    requires 0 < a < |fs.words| && 0 < b < |fs.words| && a != b && Child(fs.words, a, j) == 0
    requires forall r :: ValidPath(r, |path|) ==> Walk(fs.words, addr, r) != b
    requires forall r :: ValidPath(r, |path|) ==> (Walk(fs.words, addr, r) == a ==> r == home)
    ensures Walk(GrowChild(fs, a, j, b).words, addr, path)
         == (if path == home + [j] && Walk(fs.words, addr, home) == a then b else Walk(fs.words, addr, path))
    decreases |path|
  {
    if path != [] {
      var n := |path| - 1;
      var r, i := path[..n], path[n];
      assert path == r + [i];
      GrowWalk(fs, addr, r, a, j, b, home);
      GrowChildEntry(fs, a, j, b, Walk(GrowChild(fs, a, j, b).words, addr, r), i);
      assert path == home + [j] <==> r == home && i == j;
    }
  }

  /** Storing b below p, the only position of a, changes the walk at that position and nowhere else. */
  lemma GrowChildWalk(fs: Fs, p: Pos, a: nat, j: nat, b: nat, q: Pos)
    requires Owned(fs) && Free(fs, b) && ValidPos(fs, p) && ValidPos(fs, q)
    requires |p.path| < Level(p.slot) && j < NINDIRECT
    requires 0 < a < |fs.words| && a != b && At(fs, p) == a && At(fs, Below(p, j)) == 0
    requires Shape(GrowChild(fs, a, j, b))
    ensures At(GrowChild(fs, a, j, b), q) == (if q == Below(p, j) then b else At(fs, q))
  {
    assert Below(p, j).path[..|p.path|] == p.path;
    var addr := fs.inodes[q.ino][q.slot];
    forall r | ValidPath(r, |q.path|)
      ensures Walk(fs.words, addr, r) != b && (Walk(fs.words, addr, r) == a ==> Pos(q.ino, q.slot, r) == p)
    {
      var pos := Pos(q.ino, q.slot, r);
      assert ValidPos(fs, pos) && At(fs, pos) == Walk(fs.words, addr, r);
      FreeNotAt(fs, b, pos);
    }
    FreeNotAt(fs, b, p);
    GrowWalk(fs, addr, q.path, a, j, b, p.path);
    if q.path == p.path + [j] {
      assert ValidPath(p.path, |q.path|);
    }
  }

  /** One allocation below a position keeps ownership. */
  lemma GrowChildOwned(fs: Fs, p: Pos, j: nat, b: nat)
    requires Owned(fs) && Free(fs, b)
    requires ValidPos(fs, p) && |p.path| < Level(p.slot) && j < NINDIRECT
    requires At(fs, p) != 0 && At(fs, Below(p, j)) == 0
    ensures At(fs, p) < |fs.words| && At(fs, p) != b
    ensures var fs' := GrowChild(fs, At(fs, p), j, b);
            && Owned(fs')
            && forall q :: ValidPos(fs, q) ==> At(fs', q) == (if q == Below(p, j) then b else At(fs, q))
  {
    var a := At(fs, p);
    FreeNotAt(fs, b, p);
    var fs' := GrowChild(fs, a, j, b);
    GrowShape(fs, a, j, b);
    forall r | ValidPos(fs, r) ensures At(fs, r) != b { FreeNotAt(fs, b, r); }
    forall q | ValidPos(fs, q) ensures At(fs', q) == (if q == Below(p, j) then b else At(fs, q)) {
      GrowChildWalk(fs, p, a, j, b, q);
    }
    GrowOwned(fs, fs', Below(p, j), b);
  }

  lemma {:induction false} GrowRootWalk(fs: Fs, ino: nat, slot: nat, b: nat, q: Pos)
    requires Owned(fs) && Free(fs, b) && ino < |fs.inodes| && slot < NADDRS
    requires fs.inodes[ino][slot] == 0 && ValidPos(fs, q)
    ensures var fs' := GrowRoot(fs, ino, slot, b);
            Shape(fs') && At(fs', q) == (if q == Pos(ino, slot, []) then b else At(fs, q))
    decreases |q.path|
  {
    var fs' := GrowRoot(fs, ino, slot, b);
    if q.path != [] {
      var n := |q.path| - 1;
      var r, i := q.(path := q.path[..n]), q.path[n];
      GrowRootWalk(fs, ino, slot, b, r);
      FreeNotAt(fs, b, r);
      assert At(fs', q) == Child(fs'.words, At(fs', r), i);
      assert At(fs, q) == Child(fs.words, At(fs, r), i);
    }
  }

  lemma GrowRootOwned(fs: Fs, ino: nat, slot: nat, b: nat)
    requires Owned(fs) && Free(fs, b) && ino < |fs.inodes| && slot < NADDRS
    requires fs.inodes[ino][slot] == 0
    ensures var fs' := GrowRoot(fs, ino, slot, b);
            && Owned(fs')
            && forall q :: ValidPos(fs, q) ==> At(fs', q) == (if q == Pos(ino, slot, []) then b else At(fs, q))
  {
    var fs' := GrowRoot(fs, ino, slot, b);
    forall q | ValidPos(fs, q) ensures At(fs', q) == (if q == Pos(ino, slot, []) then b else At(fs, q)) {
      GrowRootWalk(fs, ino, slot, b, q);
    }
    assert Shape(fs');
    GrowOwned(fs, fs', Pos(ino, slot, []), b);
  }

  /** If the walk gains one fresh block at a position that was empty, ownership is kept. */
  lemma GrowOwned(fs: Fs, fs': Fs, p: Pos, b: nat)
    requires Owned(fs) && Shape(fs') && Free(fs, b)
    requires |fs'.inodes| == |fs.inodes| && fs'.nmeta == fs.nmeta && fs'.used == fs.used[b := true]
    requires ValidPos(fs, p) && At(fs, p) == 0
    requires forall q :: ValidPos(fs, q) ==> At(fs', q) == (if q == p then b else At(fs, q))
    ensures Owned(fs')
  {
    forall q | ValidPos(fs', q) ensures ValidPos(fs, q) { }
    assert At(fs', p) == b;
    FreeNotAt(fs, b, p);
    assert b >= fs.nmeta;
    forall q, r | ValidPos(fs', q) && ValidPos(fs', r) && At(fs', q) != 0 && At(fs', q) == At(fs', r)
      ensures q == r
    {
      FreeNotAt(fs, b, q);
      FreeNotAt(fs, b, r);
    }
    forall c | 0 <= c < |fs'.used| ensures fs'.used[c] <==> c < fs'.nmeta || Reachable(fs', c) {
      if Reachable(fs', c) {
        var q :| ValidPos(fs', q) && At(fs', q) == c;
        assert q != p ==> Reachable(fs, c);
      }
      if c != b && Reachable(fs, c) {
        var q :| ValidPos(fs, q) && At(fs, q) == c;
        assert At(fs', q) == c;
      }
    }
  }

  // ----------------------------------------------------------------- freeing a subtree

  /** b is in the tree of depth at most `level` below (and including) addr. */
  ghost predicate InSub(w: Words, addr: nat, level: nat, b: nat) {
    b != 0 && exists path :: ValidPath(path, level) && Walk(w, addr, path) == b
  }

  ghost predicate SubDistinct(w: Words, addr: nat, level: nat) {
    forall p, q :: ValidPath(p, level) && ValidPath(q, level) && 0 != Walk(w, addr, p) == Walk(w, addr, q) ==> p == q
  }

  ghost predicate SubUsed(w: Words, used: seq<bool>, addr: nat, level: nat) {
    |used| == |w| && forall b: nat :: InSub(w, addr, level, b) ==> b < |used| && used[b]
  }

  lemma {:induction false} WalkCons(w: Words, addr: nat, i: nat, path: seq<nat>)
    ensures Walk(w, addr, [i] + path) == Walk(w, Child(w, addr, i), path)
    decreases |path|
  {
    if path == [] {
      assert [i] + path == [i] && [i][..0] == [];
    } else {
      var n := |path| - 1;
      assert ([i] + path)[..n + 1] == [i] + path[..n];
      WalkCons(w, addr, i, path[..n]);
    }
  }

  /** What is below entry i is below addr, along paths that start with i. */
  lemma SubChild(w: Words, addr: nat, level: nat, i: nat, b: nat) returns (path: seq<nat>)
    requires level >= 1 && i < NINDIRECT && InSub(w, Child(w, addr, i), level - 1, b)
    ensures ValidPath([i] + path, level) && Walk(w, addr, [i] + path) == b
    ensures InSub(w, addr, level, b)
  {
    path :| ValidPath(path, level - 1) && Walk(w, Child(w, addr, i), path) == b;
    WalkCons(w, addr, i, path);
    assert ValidPath([i] + path, level);
  }

  /** b is below one of the first n entries of addr. */
  ghost predicate InFirst(w: Words, addr: nat, level: nat, n: nat, b: nat)
    requires level >= 1
  {
    exists i :: 0 <= i < n && InSub(w, Child(w, addr, i), level - 1, b)
  }

  lemma SubSplit(w: Words, addr: nat, level: nat, b: nat)
    requires level >= 1 && addr != 0
    ensures InSub(w, addr, level, b) <==> b == addr || InFirst(w, addr, level, NINDIRECT, b)
  {
    if InSub(w, addr, level, b) && b != addr {
      var path :| ValidPath(path, level) && Walk(w, addr, path) == b;
      assert path == [path[0]] + path[1..];
      WalkCons(w, addr, path[0], path[1..]);
      assert InSub(w, Child(w, addr, path[0]), level - 1, b);
    }
    if InFirst(w, addr, level, NINDIRECT, b) {
      var i :| 0 <= i < NINDIRECT && InSub(w, Child(w, addr, i), level - 1, b);
      var path := SubChild(w, addr, level, i, b);
    }
    if b == addr {
      assert ValidPath([], level) && Walk(w, addr, []) == b;
    }
  }

  /** Subtrees of different entries share no block, and none contains addr. */
  lemma SubDisjoint(w: Words, addr: nat, level: nat, i: nat, b: nat)
    requires level >= 1 && i < NINDIRECT && addr != 0 && SubDistinct(w, addr, level)
    requires InSub(w, Child(w, addr, i), level - 1, b)
    ensures b != addr && !InFirst(w, addr, level, i, b)
  {
    var p := SubChild(w, addr, level, i, b);
    assert Walk(w, addr, []) == addr && ValidPath([], level);
    forall k: nat, q | k < i && ValidPath(q, level - 1) ensures Walk(w, Child(w, addr, k), q) != b {
      WalkCons(w, addr, k, q);
      assert ValidPath([k] + q, level) && ([k] + q)[0] != ([i] + p)[0];
    }
  }

  lemma SubChildDistinct(w: Words, addr: nat, level: nat, i: nat)
    requires level >= 1 && i < NINDIRECT && SubDistinct(w, addr, level)
    ensures SubDistinct(w, Child(w, addr, i), level - 1)
  {
    var e := Child(w, addr, i);
    forall p, q | ValidPath(p, level - 1) && ValidPath(q, level - 1) && Walk(w, e, p) != 0
                  && Walk(w, e, p) == Walk(w, e, q)
      ensures p == q
    {
      WalkCons(w, addr, i, p);
      WalkCons(w, addr, i, q);
      assert ValidPath([i] + p, level) && ValidPath([i] + q, level);
      assert ([i] + p)[1..] == p && ([i] + q)[1..] == q;
    }
  }

  /** Owned trees can be freed slot by slot. */
  lemma OwnedSub(fs: Fs, ino: nat, slot: nat)
    requires Owned(fs) && ino < |fs.inodes| && slot < NADDRS
    ensures SubDistinct(fs.words, fs.inodes[ino][slot], Level(slot))
    ensures SubUsed(fs.words, fs.used, fs.inodes[ino][slot], Level(slot))
  {
    var addr := fs.inodes[ino][slot];
    forall p, q | ValidPath(p, Level(slot)) && ValidPath(q, Level(slot)) && Walk(fs.words, addr, p) != 0
                  && Walk(fs.words, addr, p) == Walk(fs.words, addr, q)
      ensures p == q
    {
      assert At(fs, Pos(ino, slot, p)) == At(fs, Pos(ino, slot, q));
    }
    forall b: nat | InSub(fs.words, addr, Level(slot), b) ensures b < |fs.used| && fs.used[b] {
      var p :| ValidPath(p, Level(slot)) && Walk(fs.words, addr, p) == b;
      assert At(fs, Pos(ino, slot, p)) == b;
    }
  }

  /** A slot cleared after exactly its own blocks were freed: no other position changes. */
  lemma ClearedOwned(fs: Fs, fs': Fs, ino: nat, slot: nat)
    requires Owned(fs) && ino < |fs.inodes| && slot < NADDRS
    requires fs'.words == fs.words && fs'.nmeta == fs.nmeta && |fs'.used| == |fs.used|
    requires fs'.inodes == fs.inodes[ino := ClearSlot(fs.inodes[ino], slot)]
    requires forall b :: 0 <= b < |fs.used| ==>
      (fs'.used[b] <==> fs.used[b] && !InSub(fs.words, fs.inodes[ino][slot], Level(slot), b))
    ensures Owned(fs')
    ensures forall q :: ValidPos(fs, q) ==>
      At(fs', q) == (if q.ino == ino && q.slot == slot then 0 else At(fs, q))
  {
    assert Shape(fs');
    forall q | ValidPos(fs, q)
      ensures At(fs', q) == (if q.ino == ino && q.slot == slot then 0 else At(fs, q))
    {
      if q.ino == ino && q.slot == slot {
        WalkZero(fs.words, q.path);
      }
    }
    forall c | 0 <= c < |fs'.used| ensures fs'.used[c] <==> c < fs'.nmeta || Reachable(fs', c) {
      ClearedBitmap(fs, fs', ino, slot, c);
    }
  }

  function ClearSlot(addrs: seq<nat>, slot: nat): (r: seq<nat>)
    requires slot < |addrs|
    ensures |r| == |addrs| && r[slot] == 0 && forall i :: 0 <= i < |addrs| && i != slot ==> r[i] == addrs[i]
  {
    addrs[slot := 0]
  }

  lemma {:induction false} WalkZero(w: Words, path: seq<nat>)
    ensures Walk(w, 0, path) == 0
    decreases |path|
  {
    if path != [] { WalkZero(w, path[..|path| - 1]); }
  }

  /** Inodes whose slots are all empty hold no block: with the bitmap that marks the metadata,
      this is where ownership starts. */
  lemma FreshOwned(fs: Fs)
    requires Shape(fs) && forall b :: 0 <= b < |fs.used| ==> fs.used[b] == (b < fs.nmeta)
    requires forall i, slot :: 0 <= i < |fs.inodes| && 0 <= slot < NADDRS ==> fs.inodes[i][slot] == 0
    ensures Owned(fs)
  {
    forall p | ValidPos(fs, p) ensures At(fs, p) == 0 {
      WalkZero(fs.words, p.path);
    }
  }

  lemma ClearedBitmap(fs: Fs, fs': Fs, ino: nat, slot: nat, c: nat)
    requires Owned(fs) && Shape(fs') && ino < |fs.inodes| && slot < NADDRS && c < |fs'.used| == |fs.used|
    requires |fs'.inodes| == |fs.inodes| && fs'.nmeta == fs.nmeta
    requires fs'.used[c] <==> fs.used[c] && !InSub(fs.words, fs.inodes[ino][slot], Level(slot), c)
    requires forall q :: ValidPos(fs, q) ==>
      At(fs', q) == (if q.ino == ino && q.slot == slot then 0 else At(fs, q))
    ensures fs'.used[c] <==> c < fs'.nmeta || Reachable(fs', c)
  {
    if InSub(fs.words, fs.inodes[ino][slot], Level(slot), c) {
      var p :| ValidPath(p, Level(slot)) && Walk(fs.words, fs.inodes[ino][slot], p) == c;
      assert At(fs, Pos(ino, slot, p)) == c;
      forall q | ValidPos(fs', q) ensures At(fs', q) != c {
        assert ValidPos(fs, q);
      }
    } else {
      if Reachable(fs, c) {
        var q :| ValidPos(fs, q) && At(fs, q) == c;
        assert At(fs', q) == c;
      }
      if Reachable(fs', c) {
        var q :| ValidPos(fs', q) && At(fs', q) == c;
        assert At(fs, q) == c;
      }
    }
  }

  // ----------------------------------------------------------------- logical blocks

  /** The slot and path of logical block bn: the index arithmetic of bmap. */
  function Locate(ino: nat, bn: nat): Pos
    requires bn < MAXFILE
  {
    if bn < NDIRECT then Pos(ino, bn, [])
    else
      var bn1 := bn - NDIRECT;
      if bn1 < NSINDIRECT * NINDIRECT then
        Pos(ino, NDIRECT + bn1 / NINDIRECT, [bn1 % NINDIRECT])
      else
        var bn2 := bn1 - NSINDIRECT * NINDIRECT;
        if bn2 < NDINDIRECT * NDOUBLE then
          var offset := bn2 % NDOUBLE;
          Pos(ino, NDIRECT + NSINDIRECT + bn2 / NDOUBLE, [offset / NINDIRECT, offset % NINDIRECT])
        else
          var bn3 := bn2 - NDINDIRECT * NDOUBLE;
          var offset := bn3 % NDOUBLE;
          Pos(ino, NDIRECT + NSINDIRECT + NDINDIRECT, [bn3 / NDOUBLE, offset / NINDIRECT, offset % NINDIRECT])
  }

  /** A position that holds file data. */
  predicate IsLeaf(p: Pos) {
    p.slot < NADDRS && |p.path| == Level(p.slot) && ValidPath(p.path, Level(p.slot))
  }

  /** The logical block a leaf position holds. */
  function LogicalBlock(p: Pos): nat
    requires IsLeaf(p)
  {
    match Level(p.slot)
    case 0 => p.slot
    case 1 => NDIRECT + (p.slot - NDIRECT) * NINDIRECT + p.path[0]
    case 2 => NDIRECT + NSINDIRECT * NINDIRECT + (p.slot - NDIRECT - NSINDIRECT) * NDOUBLE
              + p.path[0] * NINDIRECT + p.path[1]
    case _ => NDIRECT + NSINDIRECT * NINDIRECT + NDINDIRECT * NDOUBLE
              + p.path[0] * NDOUBLE + p.path[1] * NINDIRECT + p.path[2]
  }

  /** The four ranges map [0, MAXFILE) one-to-one onto the leaf positions of an inode. */
  lemma LocateBijection(ino: nat)
    ensures forall bn :: 0 <= bn < MAXFILE ==> IsLeaf(Locate(ino, bn)) && LogicalBlock(Locate(ino, bn)) == bn
    ensures forall p :: IsLeaf(p) && p.ino == ino ==> LogicalBlock(p) < MAXFILE && Locate(ino, LogicalBlock(p)) == p
  {
    forall bn | 0 <= bn < MAXFILE
      ensures IsLeaf(Locate(ino, bn)) && LogicalBlock(Locate(ino, bn)) == bn
    {
      LocateLeaf(ino, bn);
    }
    forall p | IsLeaf(p) && p.ino == ino
      ensures LogicalBlock(p) < MAXFILE && Locate(ino, LogicalBlock(p)) == p
    {
      LocateOnto(p);
    }
  }

  lemma LocateLeaf(ino: nat, bn: nat)
    requires bn < MAXFILE
    ensures IsLeaf(Locate(ino, bn)) && LogicalBlock(Locate(ino, bn)) == bn
  {
  }

  lemma LocateOnto(p: Pos)
    requires IsLeaf(p)
    ensures LogicalBlock(p) < MAXFILE && Locate(p.ino, LogicalBlock(p)) == p
  {
    var q := Locate(p.ino, LogicalBlock(p));
    match Level(p.slot)
    case 0 => assert q.path == p.path;
    case 1 => assert q.path == p.path;
    case 2 =>
      var off := p.path[0] * NINDIRECT + p.path[1];
      assert off < NDOUBLE && off / NINDIRECT == p.path[0] && off % NINDIRECT == p.path[1];
      assert q.path == p.path;
    case _ =>
      var off := p.path[1] * NINDIRECT + p.path[2];
      assert off < NDOUBLE && off / NINDIRECT == p.path[1] && off % NINDIRECT == p.path[2];
      assert q.path == p.path;
  }

  /** p comes before q in the order of the slots and, under a slot, of the paths. */
  predicate Earlier(p: Pos, q: Pos) {
    p.slot < q.slot || (p.slot == q.slot && Less(p.path, q.path))
  }

  /** Logical blocks use the leaves in their order: direct, single, double and triple indirect.
      With LocateBijection this determines Locate. */
  lemma LocateOrder(ino: nat, a: nat, b: nat)
    requires a < b < MAXFILE
    ensures Earlier(Locate(ino, a), Locate(ino, b))
  {
    hide Less;
    var p, q := Locate(ino, a), Locate(ino, b);
    LocateLeaf(ino, a);
    LocateLeaf(ino, b);
    if p.slot == q.slot {
      if Level(p.slot) == 1 {
        LessOne(p.path[0], q.path[0]);
      } else if Level(p.slot) == 2 {
        assert p.path == [p.path[0], p.path[1]] && q.path == [q.path[0], q.path[1]];
        LessTwo(p.path[0], p.path[1], q.path[0], q.path[1]);
      } else if Level(p.slot) == 3 {
        assert p.path == [p.path[0], p.path[1], p.path[2]] && q.path == [q.path[0], q.path[1], q.path[2]];
        LessThree(p.path[0], p.path[1], p.path[2], q.path[0], q.path[1], q.path[2]);
      }
    }
  }

  // ----------------------------------------------------------------- growth towards a position

  /** From fs to fs' only empty positions on the way to t were filled. */
  ghost predicate Grown(fs: Fs, fs': Fs, t: Pos) {
    && Shape(fs) && Shape(fs') && |fs'.inodes| == |fs.inodes| && fs'.nmeta == fs.nmeta && |fs'.used| == |fs.used|
    && (forall b :: 0 <= b < |fs.used| && fs.used[b] ==> fs'.used[b])
    && (forall q :: ValidPos(fs, q) ==>
          At(fs', q) == At(fs, q) || (At(fs, q) == 0 && q.ino == t.ino && q.slot == t.slot && q.path <= t.path))
  }

  lemma GrownTrans(fs: Fs, fs1: Fs, fs2: Fs, t1: Pos, t: Pos)
    requires Grown(fs, fs1, t1) && Grown(fs1, fs2, t)
    requires t1.ino == t.ino && t1.slot == t.slot && t1.path <= t.path
    ensures Grown(fs, fs2, t)
  {
    forall q | ValidPos(fs, q)
      ensures At(fs2, q) == At(fs, q) || (At(fs, q) == 0 && q.ino == t.ino && q.slot == t.slot && q.path <= t.path)
    {
      assert ValidPos(fs1, q);
    }
  }
}
