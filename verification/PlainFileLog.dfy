/** What a chunk of filewrite logs when the inode is a regular file of the
    continuous-sector kernel (12 direct blocks and one indirect block), whatever the
    offset and however many bitmap blocks the allocations fall in. */
module PlainFileLog {
  import opened Common
  import opened FileBytes
  import opened ContinuousFs
  import opened ContinuousFiles

  const NDIRECT := 12
  const NINDIRECT := 128
  const MAXFILE := NDIRECT + NINDIRECT

  /** ip->addrs, the words of the indirect block, and the bitmap. */
  datatype Inode = Inode(addrs: seq<nat>, indirect: seq<nat>, used: seq<bool>)

  predicate Shaped(s: Inode) {
    |s.addrs| == NDIRECT + 1 && |s.indirect| == NINDIRECT && 0 < |s.used| && s.used[0]
  }

  /** The block of file block p, or 0; position MAXFILE is that of the indirect block itself. */
  function Slot(s: Inode, p: nat): nat
    requires Shaped(s)
  {
    if p < NDIRECT then s.addrs[p]
    else if p >= MAXFILE then s.addrs[NDIRECT]
    else if s.addrs[NDIRECT] != 0 then s.indirect[p - NDIRECT]
    else 0
  }

  /** The file is the direct blocks followed by those the indirect block lists. */
  lemma FileOrder(s: Inode)
    requires Shaped(s) && s.addrs[NDIRECT] != 0
    ensures seq(MAXFILE, p requires 0 <= p < MAXFILE => Slot(s, p)) == s.addrs[..NDIRECT] + s.indirect
  {
  }

  /** The blocks of the file are in use and no two positions share one. */
  ghost predicate Owns(s: Inode) {
    && Shaped(s)
    && (forall p :: 0 <= p <= MAXFILE && Slot(s, p) != 0 ==> Slot(s, p) < |s.used| && s.used[Slot(s, p)])
    && (forall p, q :: 0 <= p <= MAXFILE && 0 <= q <= MAXFILE && Slot(s, p) != 0 && Slot(s, p) == Slot(s, q) ==> p == q)
  }

  ghost predicate InFile(s: Inode, b: nat)
    requires Shaped(s)
  {
    exists p :: 0 <= p <= MAXFILE && Slot(s, p) == b
  }

  /** The file has kept its blocks and gained free ones; no other block was taken; and every bit,
      every new block and the indirect block, if it differs, are logged. */
  ghost predicate Grows(bmapstart: nat, s: Inode, s': Inode, logged: set<nat>)
    requires Shaped(s)
  {
    && Owns(s') && |s'.used| == |s.used|
    && (forall p :: 0 <= p <= MAXFILE && Slot(s, p) != 0 ==> Slot(s', p) == Slot(s, p))
    && (forall b :: 0 <= b < |s.used| && s.used[b] ==> s'.used[b])
    && (forall b :: 0 <= b < |s.used| && s'.used[b] && !s.used[b] ==> InFile(s', b) && BitmapBlock(bmapstart, b) in logged && b in logged)
    && (s'.indirect != s.indirect || s'.addrs[NDIRECT] != s.addrs[NDIRECT] ==> s'.addrs[NDIRECT] != 0 && s'.addrs[NDIRECT] in logged)
  }

  lemma GrowsSelf(bmapstart: nat, s: Inode, logged: set<nat>)
    requires Owns(s)
    ensures Grows(bmapstart, s, s, logged)
  {
  }

  lemma GrowsTrans(bmapstart: nat, s: Inode, s1: Inode, s2: Inode, l1: set<nat>, l2: set<nat>)
    requires Shaped(s) && Shaped(s1) && Grows(bmapstart, s, s1, l1) && Grows(bmapstart, s1, s2, l2) && l1 <= l2
    ensures Grows(bmapstart, s, s2, l2)
  {
    forall p | 0 <= p <= MAXFILE && Slot(s, p) != 0 ensures Slot(s2, p) == Slot(s, p) {
      assert Slot(s1, p) == Slot(s, p);
    }
    forall b | 0 <= b < |s.used| && s2.used[b] && !s.used[b]
      ensures InFile(s2, b) && BitmapBlock(bmapstart, b) in l2 && b in l2
    {
      if s1.used[b] {
        var p :| 0 <= p <= MAXFILE && Slot(s1, p) == b;
        assert Slot(s2, p) == b;
      }
    }
    assert Slot(s1, MAXFILE) == s1.addrs[NDIRECT] && Slot(s2, MAXFILE) == s2.addrs[NDIRECT];
  }

  /** One allocation: block b goes to position p, which was empty. */
  function Put(s: Inode, p: nat, b: nat): Inode
    requires Shaped(s) && p <= MAXFILE && b < |s.used|
  {
    var used := s.used[b := true];
    if p < NDIRECT then Inode(s.addrs[p := b], s.indirect, used)
    else if p == MAXFILE then Inode(s.addrs[NDIRECT := b], seq(NINDIRECT, i => 0), used)
    else Inode(s.addrs, s.indirect[p - NDIRECT := b], used)
  }

  lemma PutSlot(s: Inode, p: nat, b: nat, q: nat)
    requires Shaped(s) && p <= MAXFILE && b < |s.used| && Slot(s, p) == 0 && q <= MAXFILE
    requires NDIRECT <= p < MAXFILE ==> s.addrs[NDIRECT] != 0
    ensures Shaped(Put(s, p, b)) && Slot(Put(s, p, b), q) == if q == p then b else Slot(s, q)
  {
  }

  lemma PutGrows(bmapstart: nat, s: Inode, p: nat, b: nat, logged: set<nat>)
    requires Owns(s) && p <= MAXFILE && b < |s.used| && !s.used[b] && Slot(s, p) == 0
    requires NDIRECT <= p < MAXFILE ==> s.addrs[NDIRECT] != 0 && s.addrs[NDIRECT] in logged
    requires BitmapBlock(bmapstart, b) in logged && b in logged
    ensures Owns(Put(s, p, b)) && Grows(bmapstart, s, Put(s, p, b), logged)
  {
    hide Put;
    forall q | 0 <= q <= MAXFILE
      ensures Shaped(Put(s, p, b)) && Slot(Put(s, p, b), q) == if q == p then b else Slot(s, q)
    {
      PutSlot(s, p, b, q);
    }
    PutFields(s, p, b);
    assert Slot(Put(s, p, b), p) == b;
  }

  lemma PutFields(s: Inode, p: nat, b: nat)
    requires Shaped(s) && p <= MAXFILE && b < |s.used|
    ensures Put(s, p, b).used == s.used[b := true]
    ensures p < NDIRECT ==> Put(s, p, b).indirect == s.indirect && Put(s, p, b).addrs[NDIRECT] == s.addrs[NDIRECT]
    ensures NDIRECT <= p < MAXFILE ==> Put(s, p, b).addrs == s.addrs
    ensures p == MAXFILE ==> |Put(s, p, b).addrs| == NDIRECT + 1 && Put(s, p, b).addrs[NDIRECT] == b
  {
  }

  /** Exactly the blocks below `end` bytes are mapped. */
  predicate MappedTo(s: Inode, end: nat) {
    Shaped(s) && forall bn :: 0 <= bn < MAXFILE ==> (Slot(s, bn) != 0 <==> bn * BSIZE < end)
  }

  /** Mapping the block of offset o <= end, and no other, extends the mapped part over m bytes of it. */
  lemma MappedNext(s: Inode, s': Inode, end: nat, o: nat, m: nat)
    requires MappedTo(s, end) && Shaped(s')
    requires o <= end && 0 < m && o % BSIZE + m <= BSIZE && o / BSIZE < MAXFILE && Slot(s', o / BSIZE) != 0
    requires forall b :: 0 <= b < MAXFILE && b != o / BSIZE ==> (Slot(s', b) != 0 <==> Slot(s, b) != 0)
    ensures MappedTo(s', if o + m > end then o + m else end)
  {
    forall b | 0 <= b < MAXFILE
      ensures Slot(s', b) != 0 <==> b * BSIZE < if o + m > end then o + m else end
    {
      assert Slot(s, b) != 0 <==> b * BSIZE < end;
    }
  }

  /** The data blocks of n bytes from off on are logged. */
  ghost predicate DataLogged(s: Inode, logged: set<nat>, off: nat, n: nat)
    requires Shaped(s)
  {
    forall bn :: off / BSIZE <= bn < MAXFILE && bn * BSIZE < off + n && n > 0 ==> Slot(s, bn) in logged
  }

  class PlainFile {
    const bmapstart: nat
    const inodeblock: nat
    var used: seq<bool>
    var addrs: seq<nat>
    /** The words of the indirect block. */
    var indirect: seq<nat>
    var size: nat
    var logged: set<nat>

    /** A regular file just made by ialloc. */
    constructor (bmapstart: nat, inodeblock: nat, used: seq<bool>)
      requires 0 < |used| && used[0]
      ensures this.used == used && size == 0 && Owns(S()) && MappedTo(S(), 0)
    {
      this.bmapstart, this.inodeblock, this.used := bmapstart, inodeblock, used;
      addrs, indirect, size, logged := seq(NDIRECT + 1, i => 0), seq(NINDIRECT, i => 0), 0, {};
    }

    ghost function S(): Inode
      reads this
    {
      Inode(addrs, indirect, used)
    }

    /** balloc; ok == false is its panic. */
    method Balloc() returns (ok: bool, b: nat)
      requires 0 < |used| && used[0]
      modifies this`used, this`logged
      ensures ok ==> 0 < b < |old(used)| && !old(used)[b] && used == old(used)[b := true]
      ensures ok ==> logged == old(logged) + {BitmapBlock(bmapstart, b), b}
      ensures !ok ==> used == old(used) && logged == old(logged) && AllUsed(used)
    {
      var i := 0;
      while i < |used|
        invariant 0 <= i <= |used| && used == old(used) && logged == old(logged)
        invariant forall b :: 0 <= b < i ==> used[b]
      {
        if !used[i] {
          used, logged := used[i := true], logged + {BitmapBlock(bmapstart, i), i};
          return true, i;
        }
        i := i + 1;
      }
      return false, 0;
    }

    /** An empty position gets a block, which costs its bitmap block and itself, or the disk is full. */
    method Fill(p: nat) returns (ok: bool, b: nat)
      requires Owns(S()) && p <= MAXFILE && Slot(S(), p) == 0
      requires NDIRECT <= p < MAXFILE ==> addrs[NDIRECT] != 0
      modifies this`used, this`addrs, this`indirect, this`logged
      ensures Shaped(S()) && (NDIRECT <= p < MAXFILE ==> addrs == old(addrs))
      ensures ok ==> 0 < b < |old(used)| && !old(used)[b] && S() == Put(old(S()), p, b)
      ensures ok ==> logged == old(logged) + {BitmapBlock(bmapstart, b), b}
      ensures !ok ==> S() == old(S()) && logged == old(logged) && AllUsed(used)
    {
      ok, b := Balloc();
      if !ok { return; }
      if p < NDIRECT {
        addrs := addrs[p := b];
      } else if p == MAXFILE {
        addrs, indirect := addrs[NDIRECT := b], seq(NINDIRECT, i => 0);
      } else {
        indirect := indirect[p - NDIRECT := b];
      }
    }

    /** bmap: a block that is already mapped logs nothing; a new one logs its bitmap
        block and itself, and at most two more for the indirect block, which is then
        in the log.  It fails only for an unmapped block on a full disk. */
    method Bmap(bn: nat) returns (ok: bool, addr: nat, ghost extra: nat)
      requires Owns(S()) && bn < MAXFILE
      modifies this`used, this`addrs, this`indirect, this`logged
      ensures Owns(S()) && Grows(bmapstart, old(S()), S(), logged) && old(logged) <= logged
      ensures ok ==> addr == Slot(S(), bn) != 0
      ensures forall b :: 0 <= b < MAXFILE && b != bn ==> Slot(S(), b) == Slot(old(S()), b)
      ensures Slot(old(S()), bn) != 0 ==> ok && S() == old(S()) && logged == old(logged)
      ensures ok && Slot(old(S()), bn) == 0 ==> addr in logged
      ensures ok ==> extra <= 2 && |logged| <= |old(logged)| + 2 + extra
      ensures ok && extra > 0 ==> addrs[NDIRECT] != 0 && addrs[NDIRECT] in logged
      ensures ok && old(addrs[NDIRECT]) != 0 && old(addrs[NDIRECT] in logged) ==> extra == 0
      ensures !ok ==> AllUsed(used) && Slot(S(), bn) == 0
    {
      hide Grows, Put;
      ghost var s := S();
      GrowsSelf(bmapstart, s, logged);
      addr := if bn < NDIRECT then addrs[bn] else if addrs[NDIRECT] == 0 then 0 else indirect[bn - NDIRECT];
      if addr != 0 { return true, addr, 0; }
      extra := 0;
      if bn >= NDIRECT {
        ok, extra := Indirect();
        if !ok { return false, 0, 0; }
      }
      ghost var s1, log1 := S(), logged;
      ok, addr := Fill(bn);
      if !ok {
        return false, 0, 0;
      }
      AtMostTwoMore(log1, logged, BitmapBlock(bmapstart, addr), addr);
      if bn >= NDIRECT {
        if addrs[NDIRECT] !in logged { extra := 1; }
        AddOne(logged, addrs[NDIRECT]);
        logged := logged + {addrs[NDIRECT]};
      }
      forall q | 0 <= q <= MAXFILE ensures Slot(S(), q) == if q == bn then addr else Slot(s1, q) {
        PutSlot(s1, bn, addr, q);
      }
      PutGrows(bmapstart, s1, bn, addr, logged);
      GrowsTrans(bmapstart, s, s1, S(), log1, logged);
    }

    /** The indirect block is there, allocated if need be. */
    method Indirect() returns (ok: bool, ghost extra: nat)
      requires Owns(S())
      modifies this`used, this`addrs, this`indirect, this`logged
      ensures Owns(S()) && Grows(bmapstart, old(S()), S(), logged) && old(logged) <= logged
      ensures forall b :: 0 <= b < MAXFILE ==> Slot(S(), b) == Slot(old(S()), b)
      ensures ok ==> addrs[NDIRECT] != 0 && |logged| <= |old(logged)| + extra
      ensures extra == 0 || (extra == 2 && addrs[NDIRECT] in logged)
      ensures old(addrs)[NDIRECT] != 0 ==> ok && S() == old(S()) && extra == 0 && logged == old(logged)
      ensures ok && old(addrs)[NDIRECT] == 0 ==> extra == 2
      ensures !ok ==> AllUsed(used) && extra == 0
    {
      hide Grows, Put;
      ghost var s, log0 := S(), logged;
      GrowsSelf(bmapstart, s, logged);
      if addrs[NDIRECT] != 0 { return true, 0; }
      assert Slot(s, MAXFILE) == 0;
      var b;
      ok, b := Fill(MAXFILE);
      if !ok { return false, 0; }
      AtMostTwoMore(log0, logged, BitmapBlock(bmapstart, b), b);
      forall q | 0 <= q <= MAXFILE ensures Slot(S(), q) == if q == MAXFILE then b else Slot(s, q) {
        PutSlot(s, MAXFILE, b, q);
      }
      assert Slot(S(), MAXFILE) == addrs[NDIRECT];
      PutGrows(bmapstart, s, MAXFILE, b, logged);
      return true, 2;
    }

    /** One iteration: the block, its bitmap block if it is new, and the indirect block. */
    method WriteBlock(o: nat, m: nat, ghost end: nat) returns (ok: bool, ghost isNew: bool, ghost extra: nat)
      requires Owns(S()) && MappedTo(S(), end) && o <= end
      requires 0 < m && o % BSIZE + m <= BSIZE && o / BSIZE < MAXFILE
      modifies this`used, this`addrs, this`indirect, this`logged
      ensures Owns(S()) && Grows(bmapstart, old(S()), S(), logged) && old(logged) <= logged
      ensures ok ==> MappedTo(S(), if o + m > end then o + m else end) && Slot(S(), o / BSIZE) in logged
      ensures isNew ==> o == end && o % BSIZE == 0
      ensures ok && !isNew ==> S() == old(S())
      ensures ok ==> |logged| <= |old(logged)| + 1 + (if isNew then 1 else 0) + extra && extra <= 2
      ensures ok && extra > 0 ==> addrs[NDIRECT] != 0 && addrs[NDIRECT] in logged
      ensures ok && old(addrs)[NDIRECT] != 0 ==> addrs[NDIRECT] == old(addrs)[NDIRECT]
      ensures ok && old(addrs)[NDIRECT] != 0 && old(addrs)[NDIRECT] in old(logged) ==> extra == 0
      ensures !ok ==> AllUsed(used) && isNew && MappedTo(S(), end)
    {
      hide Owns;
      isNew := Slot(S(), o / BSIZE) == 0;
      assert isNew <==> o / BSIZE * BSIZE >= end;
      ghost var s, log0 := S(), logged;
      var addr;
      ok, addr, extra := Bmap(o / BSIZE);
      OwnsShape(S());
      assert Slot(s, MAXFILE) == s.addrs[NDIRECT] && Slot(S(), MAXFILE) == addrs[NDIRECT];
      if !ok { return; }
      MappedNext(s, S(), end, o, m);
      AddOne(logged, addr);
      GrowsMore(bmapstart, s, S(), logged, logged + {addr});
      logged := logged + {addr};
      if !isNew { extra := 0; }
    }

    /** The loop of writei over a chunk. */
    method WriteLoop(off: nat, n: nat) returns (ok: bool)
      requires Owns(S()) && MappedTo(S(), size) && logged == {}
      requires off <= size && n <= CHUNK && off + n <= MAXFILE * BSIZE
      modifies this`used, this`addrs, this`indirect, this`logged
      ensures Owns(S()) && Grows(bmapstart, old(S()), S(), logged)
      ensures ok ==> MappedTo(S(), if off + n > size then off + n else size) && DataLogged(S(), logged, off, n)
      ensures ok ==> |logged| < MAXOPBLOCKS && (off + n <= size ==> S() == old(S()))
      ensures !ok ==> AllUsed(used) && off + n > Ceil(size)
    {
      hide MappedTo, Grows, Owns, DataLogged, Slot, Touched;
      ghost var s := S();
      GrowsSelf(bmapstart, s, logged);
      NoData(s, logged, off);
      OwnsShape(s);
      var tot := 0;
      ghost var touched, gained, extra := 0, 0, 0;
      while tot < n
        invariant 0 <= tot <= n && Aligned(off, tot, n) && Owns(S()) && Shaped(S())
        invariant Grows(bmapstart, s, S(), logged) && MappedTo(S(), if off + tot > size then off + tot else size)
        invariant DataLogged(S(), logged, off, tot) && (off + tot <= size ==> S() == s)
        invariant touched == Touched(off, tot) && gained <= touched && (touched > 0 <==> tot > 0)
        invariant off % BSIZE != 0 && touched > 0 ==> gained < touched
        invariant extra <= 2 && (extra > 0 ==> addrs[NDIRECT] != 0 && addrs[NDIRECT] in logged)
        invariant |logged| <= touched + gained + extra
      {
        var m := Min(n - tot, BSIZE - (off + tot) % BSIZE);
        TouchedNext(off, tot, m, n);
        ghost var s1, log1 := S(), logged;
        ghost var isNew, more;
        ok, isNew, more := WriteBlock(off + tot, m, if off + tot > size then off + tot else size);
        OwnsShape(S());
        GrowsTrans(bmapstart, s, s1, S(), log1, logged);
        if !ok { return false; }
        MoreData(bmapstart, s1, S(), log1, logged, off, tot, m, n, if off + tot > size then off + tot else size);
        touched, gained, extra := touched + 1, gained + (if isNew then 1 else 0), extra + more;
        tot := tot + m;
      }
      FourOrThree(off, n);
      return true;
    }

    /** One filewrite chunk: writei's refusals, or all of it, or balloc's panic, which needs a
        file that has to gain a block and a full disk.  All that changed is logged: bitmap, new
        blocks, indirect block, data and inode.  An unaligned chunk touches four blocks, but the
        first is already mapped; an aligned one touches three. */
    method WriteChunk(off: nat, n: nat) returns (panic: bool, r: int)
      requires Owns(S()) && MappedTo(S(), size) && off < UINT && n <= CHUNK
      modifies this
      ensures Owns(S()) && Grows(bmapstart, old(S()), S(), logged)
      ensures off > old(size) || off + n >= UINT || off + n > MAXFILE * BSIZE ==>
                !panic && r == -1 && S() == old(S()) && size == old(size) && logged == {}
      ensures off <= old(size) && off + n < UINT && off + n <= MAXFILE * BSIZE && !panic ==>
                && r == n && MappedTo(S(), size) && size == (if off + n > old(size) then off + n else old(size))
                && DataLogged(S(), logged, off, n) && (addrs != old(addrs) || size != old(size) ==> inodeblock in logged)
      ensures !panic ==> |logged| <= MAXOPBLOCKS
      ensures panic ==> AllUsed(used) && off + n > Ceil(old(size)) && size == old(size)
    {
      hide MappedTo, Grows, Owns, DataLogged;
      ghost var s := S();
      logged := {};
      GrowsSelf(bmapstart, s, logged);
      if off > size || off + n >= UINT { return false, -1; }
      if off + n > MAXFILE * BSIZE { return false, -1; }
      var ok := WriteLoop(off, n);
      if !ok { return true, -1; }
      if n > 0 && off + n > size {
        size := off + n;
        OwnsShape(s);
        OwnsShape(S());
        GrowsMore(bmapstart, s, S(), logged, logged + {inodeblock});
        DataMore(S(), logged, logged + {inodeblock}, off, n);
        logged := logged + {inodeblock};
      }
      return false, n;
    }
  }

  lemma OwnsShape(s: Inode)
    requires Owns(s)
    ensures Shaped(s)
  {
  }

  lemma GrowsMore(bmapstart: nat, s: Inode, s': Inode, l: set<nat>, l': set<nat>)
    requires Shaped(s) && Grows(bmapstart, s, s', l) && l <= l'
    ensures Grows(bmapstart, s, s', l')
  {
  }

  lemma NoData(s: Inode, logged: set<nat>, off: nat)
    requires Owns(s)
    ensures Shaped(s) && DataLogged(s, logged, off, 0) && Touched(off, 0) == 0
  {
  }

  lemma DataMore(s: Inode, l: set<nat>, l': set<nat>, off: nat, n: nat)
    requires Shaped(s) && DataLogged(s, l, off, n) && l <= l'
    ensures DataLogged(s, l', off, n)
  {
  }

  /** The blocks that were logged are still those of the same bytes, and one more is. */
  lemma MoreData(bmapstart: nat, s: Inode, s': Inode, l: set<nat>, l': set<nat>, off: nat, tot: nat, m: nat, n: nat, end: nat)
    requires Shaped(s) && Shaped(s') && Grows(bmapstart, s, s', l') && l <= l' && DataLogged(s, l, off, tot)
    requires tot < n && m == Min(n - tot, BSIZE - (off + tot) % BSIZE) && Aligned(off, tot, n) && off + n <= MAXFILE * BSIZE
    requires MappedTo(s, end) && off + tot <= end && Slot(s', (off + tot) / BSIZE) in l'
    ensures DataLogged(s', l', off, tot + m)
  {
    forall bn | off / BSIZE <= bn < MAXFILE && bn * BSIZE < off + (tot + m) ensures Slot(s', bn) in l' {
      if bn != (off + tot) / BSIZE {
        assert bn * BSIZE < off + tot;
        assert Slot(s, bn) != 0;
      }
    }
  }

  lemma FourOrThree(off: nat, n: nat)
    requires n <= CHUNK
    ensures Touched(off, n) <= 4 && (off % BSIZE == 0 ==> Touched(off, n) <= 3)
  {
  }

  lemma AddOne(s: set<nat>, x: nat)
    ensures |s + {x}| <= |s| + 1 && (x in s ==> s + {x} == s)
  {
  }
}
