/** The continuous-sector kernel's fs.c for one T_CS inode on a disk shared with other
    files: ballocx, bfree, csbmap and itrunc, and what each of them logs.

    `logged` is the set of blocks the current transaction has passed to log_write. */
module ContinuousFs {
  import opened Common
  import opened FileBytes
  import opened Extents

  /** How csbmap ended; all but the first two return block 0. */
  datatype Outcome = Found | Appended | ZeroLength | NonSequential | RangeExceeded | DiskFull | BlockTooHigh | NoEntries

  /** First-fit: the lowest free block, or the size of the disk. */
  function FirstFree(used: seq<bool>): (b: nat)
    ensures b <= |used| && (forall c :: 0 <= c < b ==> used[c]) && (b < |used| ==> !used[b])
  {
    if used == [] || !used[0] then 0 else 1 + FirstFree(used[1..])
  }

  lemma FirstFreeIs(used: seq<bool>, b: nat)
    requires b <= |used| && (forall c :: 0 <= c < b ==> used[c]) && (b < |used| ==> !used[b])
    ensures FirstFree(used) == b
  {
  }

  /** The entries of a CS inode: a greedy packing, then zeros. */
  ghost predicate EntriesOk(addrs: seq<nat>) {
    |addrs| == NDIRECT + 1 && Packed(RunsOf(addrs)) && TailZero(addrs, Count(addrs))
  }

  ghost predicate Packed(runs: seq<Run>) {
    RunsOk(runs) && runs == Pack(Decode(runs))
  }

  predicate TailZero(addrs: seq<nat>, k: nat)
    requires |addrs| == NDIRECT + 1
  {
    forall j :: k <= j < NDIRECT ==> addrs[j] == 0
  }

  /** The blocks of the file are distinct, in use, and none of them is block 0. */
  ghost predicate BlocksOk(blocks: seq<nat>, used: seq<bool>) {
    && Distinct(blocks)
    && forall i :: 0 <= i < |blocks| ==> 0 < blocks[i] < |used| && used[blocks[i]]
  }

  /** Bytes of blocks in use are kept. */
  ghost predicate UsedKept(used: seq<bool>, bytes: seq<seq<Byte>>, bytes': seq<seq<Byte>>) {
    |bytes| == |bytes'| == |used| && forall b :: 0 <= b < |used| && used[b] ==> bytes'[b] == bytes[b]
  }

  /** The block of the bitmap that has the bit of b. */
  function BitmapBlock(bmapstart: nat, b: nat): nat {
    bmapstart + b / BPB
  }

  /** The bitmap is a row of blocks of BPB bits. */
  lemma BitOf(bmapstart: nat, b: nat, i: nat)
    ensures BitmapBlock(bmapstart, b) == bmapstart + i <==> i * BPB <= b < (i + 1) * BPB
  {
  }

  /** Every bit and every block that differs was passed to log_write. */
  ghost predicate Recorded(bmapstart: nat, used: seq<bool>, bytes: seq<seq<Byte>>, used': seq<bool>, bytes': seq<seq<Byte>>, logged: set<nat>) {
    && BitsLogged(bmapstart, used, used', logged) && |bytes'| == |bytes|
    && (forall b :: 0 <= b < |bytes| && bytes'[b] != bytes[b] ==> b in logged)
  }

  /** The block of every bit that differs was passed to log_write. */
  ghost predicate BitsLogged(bmapstart: nat, used: seq<bool>, used': seq<bool>, logged: set<nat>) {
    |used'| == |used| && forall b :: 0 <= b < |used| && used'[b] != used[b] ==> BitmapBlock(bmapstart, b) in logged
  }

  lemma BitsLoggedTrans(bmapstart: nat, u: seq<bool>, u1: seq<bool>, u2: seq<bool>, l1: set<nat>, l2: set<nat>)
    requires BitsLogged(bmapstart, u, u1, l1) && BitsLogged(bmapstart, u1, u2, l2) && l1 <= l2
    ensures BitsLogged(bmapstart, u, u2, l2)
  {
  }

  lemma BitsLoggedMore(bmapstart: nat, u: seq<bool>, u1: seq<bool>, l1: set<nat>, l2: set<nat>)
    requires (u1 == u || BitsLogged(bmapstart, u, u1, l1)) && l1 <= l2
    ensures BitsLogged(bmapstart, u, u1, l2)
  {
  }

  lemma RecordedTrans(bmapstart: nat, u: seq<bool>, y: seq<seq<Byte>>, u1: seq<bool>, y1: seq<seq<Byte>>,
                      u2: seq<bool>, y2: seq<seq<Byte>>, l1: set<nat>, l2: set<nat>)
    requires Recorded(bmapstart, u, y, u1, y1, l1) && Recorded(bmapstart, u1, y1, u2, y2, l2) && l1 <= l2
    ensures Recorded(bmapstart, u, y, u2, y2, l2)
  {
  }

  class CsFile {
    const bmapstart: nat
    const inodeblock: nat
    var used: seq<bool>
    var bytes: seq<seq<Byte>>
    /** ip->addrs and ip->size */
    var addrs: seq<nat>
    var size: nat
    var logged: set<nat>

    /** A CS inode just made by ialloc, on a disk with this bitmap and these contents. */
    constructor (bmapstart: nat, inodeblock: nat, used: seq<bool>, bytes: seq<seq<Byte>>)
      requires 0 < |used| && used[0] && |bytes| == |used| && forall b :: 0 <= b < |bytes| ==> |bytes[b]| == BSIZE
      ensures Valid() && Blocks() == [] && size == 0 && this.used == used && this.bytes == bytes
    {
      this.bmapstart, this.inodeblock, this.used, this.bytes := bmapstart, inodeblock, used, bytes;
      addrs, size, logged := seq(NDIRECT + 1, i => 0), 0, {};
      new;
      Emptied(addrs);
    }

    ghost predicate DiskOk()
      reads this
    {
      && 0 < |used| && used[0] && |bytes| == |used|
      && forall b :: 0 <= b < |bytes| ==> |bytes[b]| == BSIZE
    }

    ghost predicate Valid()
      reads this
    {
      DiskOk() && EntriesOk(addrs) && BlocksOk(BlocksOf(addrs), used)
    }

    /** The file as a plain sequence of blocks. */
    ghost function Blocks(): seq<nat>
      requires |addrs| == NDIRECT + 1
      reads this
    {
      BlocksOf(addrs)
    }

    /** ballocx(dev, 1): block 0 when the disk is full. */
    method Ballocx() returns (b: nat)
      requires DiskOk()
      modifies this`used, this`bytes, this`logged
      ensures DiskOk()
      ensures b == 0 <==> FirstFree(old(used)) == |old(used)|
      ensures b == 0 ==> used == old(used) && bytes == old(bytes) && logged == old(logged)
      ensures b != 0 ==>
        && b == FirstFree(old(used)) && used == old(used)[b := true] && bytes == old(bytes)[b := ZeroBytes()]
        && logged == old(logged) + {BitmapBlock(bmapstart, b), b}
    {
      var base := 0;
      while base < |used|
        invariant 0 <= base && used == old(used) && bytes == old(bytes) && logged == old(logged)
        invariant forall c :: 0 <= c < base && c < |used| ==> used[c]
      {
        var bi := 0;
        while bi < BPB && base + bi < |used|
          invariant 0 <= bi <= BPB && used == old(used) && bytes == old(bytes) && logged == old(logged)
          invariant forall c :: 0 <= c < base + bi && c < |used| ==> used[c]
        {
          if !used[base + bi] {
            b := base + bi;
            FirstFreeIs(used, b);
            used, bytes := used[b := true], bytes[b := ZeroBytes()];
            logged := logged + {BitmapBlock(bmapstart, b), b};
            return b;
          }
          bi := bi + 1;
        }
        base := base + BPB;
      }
      FirstFreeIs(used, |used|);
      return 0;
    }

    /** bfree; its panic is the precondition. */
    method Bfree(b: nat)
      requires b < |used| && used[b]
      modifies this`used, this`logged
      ensures used == old(used)[b := false] && logged == old(logged) + {BitmapBlock(bmapstart, b)}
    {
      used, logged := used[b := false], logged + {BitmapBlock(bmapstart, b)};
    }

    /** The scan of csbmap over the entries. */
    method Lookup(bn: nat) returns (why: Outcome, addr: nat, total: int, last: int)
      requires Valid()
      ensures why.Found? || why.NonSequential?
      ensures why.Found? <==> bn < |Blocks()|
      ensures why.Found? ==> addr == Blocks()[bn]
      ensures why.NonSequential? ==> total == |Blocks()| && last == Count(addrs) - 1
    {
      ghost var runs := RunsOf(addrs);
      why, addr, total, last := NonSequential, 0, 0, -1;
      var i := 0;
      while i < NDIRECT && addrs[i] != 0
        invariant 0 <= i <= Count(addrs) && last == i - 1 && why == NonSequential
        invariant total == |Decode(runs[..i])| && total <= bn
      {
        var start, length := addrs[i] / 256, addrs[i] % 256;
        assert runs[i] == Run(start, length);
        if length == 0 { why := ZeroLength; return; }
        if bn < total + length {
          DecodeAt(runs, i, bn);
          why, addr := Found, start + (bn - total);
          return;
        }
        DecodeNext(runs, i);
        total, last, i := total + length, i, i + 1;
      }
      assert runs[..i] == runs;
    }

    /** csbmap: block bn of the file if it has one; otherwise, for the next block in
        order, a new block appended by greedy packing; otherwise nothing changes. */
    method Csbmap(bn: nat) returns (addr: nat, why: Outcome)
      requires Valid()
      modifies this`used, this`bytes, this`addrs, this`logged
      ensures Valid()
      ensures why.Found? <==> bn < |old(Blocks())|
      ensures why.Found? ==> addr == old(Blocks())[bn] && addrs == old(addrs) && used == old(used)
                             && bytes == old(bytes) && logged == old(logged)
      ensures why.NonSequential? <==> bn > |old(Blocks())|
      ensures !why.ZeroLength?
      ensures why.Appended? ==> bn == |old(Blocks())|
      ensures why.Appended? ==> AppendedTo(old(addrs), old(used), old(bytes), addrs, used, bytes, addr)
      ensures !why.Found? && !why.Appended? ==>
        && addr == 0 && addrs == old(addrs) && used == old(used) && UsedKept(old(used), old(bytes), bytes)
      ensures why.RangeExceeded? ==> bn >= MAXCSBLOCKS
      ensures FailedFor(why, addrs, used)
      ensures var f := FirstFree(old(used)); old(logged) <= logged <= old(logged) + {BitmapBlock(bmapstart, f), f}
      ensures Recorded(bmapstart, old(used), old(bytes), used, bytes, logged)
    {
      var total, last;
      why, addr, total, last := Lookup(bn);
      if why.Found? { return; }
      if bn != total { return 0, NonSequential; }
      if bn >= MAXCSBLOCKS { return 0, RangeExceeded; }
      addr, why := AppendNew(last);
    }

    /** The second half of csbmap: allocate, then give the block an entry. */
    method AppendNew(last: int) returns (addr: nat, why: Outcome)
      requires Valid() && last == Count(addrs) - 1
      modifies this`used, this`bytes, this`addrs, this`logged
      ensures Valid()
      ensures why.Appended? || why.DiskFull? || why.BlockTooHigh? || why.NoEntries?
      ensures why.Appended? ==> AppendedTo(old(addrs), old(used), old(bytes), addrs, used, bytes, addr)
      ensures !why.Appended? ==>
        && addr == 0 && addrs == old(addrs) && used == old(used) && UsedKept(old(used), old(bytes), bytes)
      ensures FailedFor(why, addrs, used)
      ensures var f := FirstFree(old(used)); old(logged) <= logged <= old(logged) + {BitmapBlock(bmapstart, f), f}
      ensures Recorded(bmapstart, old(used), old(bytes), used, bytes, logged)
    {
      addr := Ballocx();
      if addr == 0 { return 0, DiskFull; }
      if addr > MAX_BLOCK {
        Bfree(addr);
        assert used == old(used);
        return 0, BlockTooHigh;
      }
      var ok := Place(last, addr, old(used));
      if !ok {
        Bfree(addr);
        assert used == old(used);
        return 0, NoEntries;
      }
      return addr, Appended;
    }

    /** Lengthen entry `last` if the block follows it, or fill the next entry if there is one. */
    method Place(last: int, addr: nat, ghost used0: seq<bool>) returns (ok: bool)
      requires EntriesOk(addrs) && BlocksOk(BlocksOf(addrs), used0) && last == Count(addrs) - 1
      requires 0 < addr < |used0| && !used0[addr]
      modifies this`addrs
      ensures ok ==> EntriesOk(addrs) && BlocksOf(addrs) == old(BlocksOf(addrs)) + [addr]
      ensures ok ==> RunsOf(addrs) == Append(RunsOf(old(addrs)), addr) && BlocksOk(BlocksOf(addrs), used0[addr := true])
      ensures !ok ==> addrs == old(addrs) && |Append(RunsOf(addrs), addr)| > NDIRECT
    {
      hide Packed, TailZero, BlocksOk, Append, RunsOf, BlocksOf, RunsUpTo, Encode;
      if last >= 0 {
        var start, length := addrs[last] / 256, addrs[last] % 256;
        if length < CS_MAX_LENGTH && addr == start + length {
          var longer: seq<nat> := addrs[last := start * 256 + (length + 1)];
          Lengthened(addrs, longer, last + 1, addr, used0);
          addrs := longer;
          return true;
        }
      }
      NotLengthened(addrs, last + 1, addr);
      if last + 1 >= NDIRECT { return false; }
      var longer: seq<nat> := addrs[last + 1 := addr * 256 + 1];
      Begun(addrs, longer, last + 1, addr, used0);
      addrs := longer;
      return true;
    }

    /** Frees the blocks of entry i, which follow `done` blocks of earlier entries. */
    method FreeRun(start: nat, length: nat, ghost blocks: seq<nat>, ghost used0: seq<bool>, ghost done: nat)
      requires BlocksOk(blocks, used0) && done + length <= |blocks| && |used| == |used0|
      requires forall m :: done <= m < done + length ==> blocks[m] == start + (m - done)
      requires forall b :: 0 <= b < |used| ==> (used[b] <==> used0[b] && !Among(blocks, done, b))
      modifies this`used, this`logged
      ensures |used| == |used0| && old(logged) <= logged && BitsLogged(bmapstart, old(used), used, logged)
      ensures forall b :: 0 <= b < |used| ==> (used[b] <==> used0[b] && !Among(blocks, done + length, b))
    {
      for j := 0 to length
        invariant |used| == |used0| && old(logged) <= logged && BitsLogged(bmapstart, old(used), used, logged)
        invariant forall b :: 0 <= b < |used| ==> (used[b] <==> used0[b] && !Among(blocks, done + j, b))
      {
        assert blocks[done + j] == start + j;
        Bfree(start + j);
        forall b | 0 <= b < |used| ensures used[b] <==> used0[b] && !Among(blocks, done + (j + 1), b) {
          AmongNext(blocks, done + j, b);
        }
      }
    }

    /** One entry of itrunc; `done` blocks of the file are already freed. */
    method FreeEntry(i: nat, ghost runs: seq<Run>, ghost used0: seq<bool>, ghost done: nat) returns (ghost done': nat)
      requires |addrs| == NDIRECT + 1 && i < NDIRECT && |used| == |used0| && BlocksOk(Decode(runs), used0)
      requires i < |runs| ==> runs[i] == RunOf(addrs[i]) && addrs[i] != 0
      requires i >= |runs| ==> addrs[i] == 0
      requires done == Offset(runs, i)
      requires forall b :: 0 <= b < |used| ==> (used[b] <==> used0[b] && !Among(Decode(runs), done, b))
      modifies this`used, this`addrs, this`logged
      ensures addrs == old(addrs)[i := 0] && |used| == |used0| && done' == Offset(runs, i + 1)
      ensures old(logged) <= logged && BitsLogged(bmapstart, old(used), used, logged)
      ensures forall b :: 0 <= b < |used| ==> (used[b] <==> used0[b] && !Among(Decode(runs), done', b))
    {
      done' := done;
      if addrs[i] != 0 {
        var start, length := addrs[i] / 256, addrs[i] % 256;
        EntryBlocks(runs, i, start, length);
        FreeRun(start, length, Decode(runs), used0, done);
        done' := done + length;
        addrs := addrs[i := 0];
      }
    }

    /** itrunc of a CS inode: frees every block of the file once, and nothing else; the bitmap
        blocks that change and the inode are logged. */
    method Itrunc()
      requires Valid()
      modifies this`used, this`addrs, this`size, this`logged
      ensures Valid() && Blocks() == [] && size == 0 && |used| == |old(used)|
      ensures forall b :: 0 <= b < |used| ==> (used[b] <==> old(used)[b] && b !in old(Blocks()))
      ensures old(logged) <= logged && BitsLogged(bmapstart, old(used), used, logged) && inodeblock in logged
    {
      hide BitsLogged, Packed;
      ghost var runs, used0 := RunsOf(addrs), used;
      ghost var done := 0;
      BitsLoggedMore(bmapstart, used, used, logged, logged);
      assert Offset(runs, 0) == 0;
      for i := 0 to NDIRECT
        invariant |addrs| == NDIRECT + 1 && |used| == |used0| && done == Offset(runs, i)
        invariant old(logged) <= logged && BitsLogged(bmapstart, old(used), used, logged)
        invariant forall j :: 0 <= j < i ==> addrs[j] == 0
        invariant forall j :: i <= j < NDIRECT ==> addrs[j] == old(addrs)[j]
        invariant forall b :: 0 <= b < |used| ==> (used[b] <==> used0[b] && !Among(Decode(runs), done, b))
      {
        ghost var used1, logged1 := used, logged;
        done := FreeEntry(i, runs, used0, done);
        BitsLoggedTrans(bmapstart, old(used), used1, used, logged1, logged);
      }
      BitsLoggedMore(bmapstart, old(used), used, logged, logged + {inodeblock});
      addrs, size, logged := addrs[NDIRECT := 0], 0, logged + {inodeblock};
      Emptied(addrs);
      assert runs[..|runs|] == runs;
      assert forall b :: Among(Decode(runs), done, b) <==> b in Decode(runs);
    }
  }

  /** b is one of the first n blocks of a file. */
  ghost predicate Among(blocks: seq<nat>, n: nat, b: nat) {
    exists k :: 0 <= k < n && k < |blocks| && blocks[k] == b
  }

  lemma AmongNext(blocks: seq<nat>, n: nat, b: nat)
    requires n < |blocks|
    ensures Among(blocks, n + 1, b) <==> Among(blocks, n, b) || b == blocks[n]
  {
  }

  lemma {:induction false} DecodePrefix(runs: seq<Run>, i: nat)
    requires i <= |runs|
    ensures |Decode(runs[..i])| <= |Decode(runs)|
    decreases |runs| - i
  {
    if i < |runs| {
      DecodePrefix(runs, i + 1);
      DecodeNext(runs, i);
    } else {
      assert runs[..i] == runs;
    }
  }

  lemma DecodeNext(runs: seq<Run>, i: nat)
    requires i < |runs|
    ensures Decode(runs[..i + 1]) == Decode(runs[..i]) + Expand(runs[i])
  {
    assert runs[..i + 1][..i] == runs[..i];
  }

  /** How many blocks the first i entries hold. */
  ghost function Offset(runs: seq<Run>, i: nat): nat {
    |Decode(runs[..if i < |runs| then i else |runs|])|
  }

  lemma Emptied(addrs: seq<nat>)
    requires |addrs| == NDIRECT + 1 && forall j :: 0 <= j < NDIRECT ==> addrs[j] == 0
    ensures EntriesOk(addrs) && BlocksOf(addrs) == []
  {
    CountIs(addrs, 0);
  }

  /** Where the blocks of entry i sit in the file. */
  lemma EntryBlocks(runs: seq<Run>, i: nat, start: nat, length: nat)
    requires i < |runs| && runs[i] == Run(start, length)
    ensures |Decode(runs[..i + 1])| == |Decode(runs[..i])| + length <= |Decode(runs)|
    ensures var d := |Decode(runs[..i])|; forall m :: d <= m < d + length ==> Decode(runs)[m] == start + (m - d)
  {
    DecodeNext(runs, i);
    DecodePrefix(runs, i + 1);
    var d := |Decode(runs[..i])|;
    forall m | d <= m < d + length ensures Decode(runs)[m] == start + (m - d) {
      DecodeAt(runs, i, m);
    }
  }

  /** The file has gained block b, the first free one, zeroed, by greedy packing. */
  ghost predicate AppendedTo(addrs: seq<nat>, used: seq<bool>, bytes: seq<seq<Byte>>,
                             addrs': seq<nat>, used': seq<bool>, bytes': seq<seq<Byte>>, b: nat)
  {
    && |addrs| == |addrs'| == NDIRECT + 1 && |bytes| == |used|
    && 0 < b < |used| && b == FirstFree(used)
    && BlocksOf(addrs') == BlocksOf(addrs) + [b]
    && RunsOf(addrs') == Append(RunsOf(addrs), b)
    && used' == used[b := true] && bytes' == bytes[b := ZeroBytes()]
  }

  /** What each failure after the range checks means. */
  ghost predicate FailedFor(why: Outcome, addrs: seq<nat>, used: seq<bool>) {
    && |addrs| == NDIRECT + 1
    && (why.DiskFull? ==> FirstFree(used) == |used|)
    && (why.BlockTooHigh? ==> FirstFree(used) > MAX_BLOCK)
    && (why.NoEntries? ==> |Append(RunsOf(addrs), FirstFree(used))| > NDIRECT)
  }

  /** csbmap can add no block: the disk is full, the first free block does not fit in 24 bits,
      or greedy packing needs a thirteenth entry for it. */
  ghost predicate CannotGrow(addrs: seq<nat>, used: seq<bool>) {
    && |addrs| == NDIRECT + 1
    && (|| FirstFree(used) == |used| || FirstFree(used) > MAX_BLOCK
        || |Append(RunsOf(addrs), FirstFree(used))| > NDIRECT)
  }

  /** The entry that already ends just before b gets one block longer. */
  lemma Lengthened(addrs: seq<nat>, addrs': seq<nat>, k: nat, b: nat, used: seq<bool>)
    requires EntriesOk(addrs) && BlocksOk(BlocksOf(addrs), used) && 1 <= k == Count(addrs)
    requires 0 < b < |used| && !used[b]
    requires var r := RunOf(addrs[k - 1]);
             r.len < CS_MAX_LENGTH && b == r.start + r.len && addrs' == addrs[k - 1 := r.start * 256 + (r.len + 1)]
    ensures EntriesOk(addrs') && BlocksOf(addrs') == BlocksOf(addrs) + [b]
    ensures RunsOf(addrs') == Append(RunsOf(addrs), b) && BlocksOk(BlocksOf(addrs'), used[b := true])
  {
    var r := RunOf(addrs[k - 1]);
    var r' := Run(r.start, r.len + 1);
    assert RunsOf(addrs)[k - 1] == r;
    assert Append(RunsOf(addrs), b) == RunsUpTo(addrs, k - 1) + [r'];
    Stored(addrs, addrs', k, r', b, used);
  }

  /** Otherwise a new entry is needed, and there may be none. */
  lemma NotLengthened(addrs: seq<nat>, k: nat, b: nat)
    requires EntriesOk(addrs) && k == Count(addrs)
    requires k >= 1 ==> var r := RunOf(addrs[k - 1]); !(r.len < CS_MAX_LENGTH && b == r.start + r.len)
    ensures Append(RunsOf(addrs), b) == RunsUpTo(addrs, k) + [Run(b, 1)]
    ensures |Append(RunsOf(addrs), b)| == k + 1
  {
    assert k >= 1 ==> RunsOf(addrs)[k - 1] == RunOf(addrs[k - 1]);
  }

  lemma Begun(addrs: seq<nat>, addrs': seq<nat>, k: nat, b: nat, used: seq<bool>)
    requires EntriesOk(addrs) && BlocksOk(BlocksOf(addrs), used) && k == Count(addrs) && k < NDIRECT
    requires 0 < b < |used| && !used[b] && addrs' == addrs[k := b * 256 + 1]
    requires Append(RunsOf(addrs), b) == RunsUpTo(addrs, k) + [Run(b, 1)]
    ensures EntriesOk(addrs') && BlocksOf(addrs') == BlocksOf(addrs) + [b]
    ensures RunsOf(addrs') == Append(RunsOf(addrs), b) && BlocksOk(BlocksOf(addrs'), used[b := true])
  {
    Stored(addrs, addrs', k + 1, Run(b, 1), b, used);
  }

  /** Writing entry k - 1 as the greedy append dictates keeps the inode well formed. */
  lemma Stored(addrs: seq<nat>, addrs': seq<nat>, k: nat, r: Run, b: nat, used: seq<bool>)
    requires EntriesOk(addrs) && BlocksOk(BlocksOf(addrs), used)
    requires 1 <= k <= NDIRECT && 1 <= r.len <= CS_MAX_LENGTH && addrs' == addrs[k - 1 := Encode(r)]
    requires k == Count(addrs) || k == Count(addrs) + 1
    requires Append(RunsOf(addrs), b) == RunsUpTo(addrs, k - 1) + [r]
    requires 0 < b < |used| && !used[b]
    ensures EntriesOk(addrs') && BlocksOf(addrs') == BlocksOf(addrs) + [b]
    ensures RunsOf(addrs') == Append(RunsOf(addrs), b)
    ensures BlocksOk(BlocksOf(addrs'), used[b := true])
  {
    EntryWritten(addrs, addrs', k, r);
    PackedMore(RunsOf(addrs), b);
    GainedOk(BlocksOf(addrs), b, used);
  }

  lemma EntryWritten(addrs: seq<nat>, addrs': seq<nat>, k: nat, r: Run)
    requires |addrs| == NDIRECT + 1 && TailZero(addrs, Count(addrs))
    requires 1 <= k <= NDIRECT && 1 <= r.len <= CS_MAX_LENGTH && addrs' == addrs[k - 1 := Encode(r)]
    requires k == Count(addrs) || k == Count(addrs) + 1
    ensures RunsOf(addrs') == RunsUpTo(addrs, k - 1) + [r]
    ensures Count(addrs') == k && TailZero(addrs', k)
  {
    RunsUpdate(addrs, k, r);
    EncodeRoundTrip(r);
    CountIs(addrs', k);
  }

  lemma PackedMore(runs: seq<Run>, b: nat)
    requires Packed(runs)
    ensures Packed(Append(runs, b)) && Decode(Append(runs, b)) == Decode(runs) + [b]
  {
    AppendDecodes(runs, b);
    PackNext(Decode(runs), b);
  }

  lemma PackNext(blocks: seq<nat>, b: nat)
    ensures Pack(blocks + [b]) == Append(Pack(blocks), b)
  {
    assert (blocks + [b])[..|blocks|] == blocks;
  }

  lemma GainedOk(blocks: seq<nat>, b: nat, used: seq<bool>)
    requires BlocksOk(blocks, used) && 0 < b < |used| && !used[b]
    ensures BlocksOk(blocks + [b], used[b := true])
  {
  }

  /** When csbmap reports that the entries are exhausted, no encoding of the longer
      file in twelve runs exists. */
  lemma NoEntriesMeansNone(addrs: seq<nat>, b: nat, runs: seq<Run>)
    requires EntriesOk(addrs) && |Append(RunsOf(addrs), b)| > NDIRECT
    requires RunsOk(runs) && Decode(runs) == BlocksOf(addrs) + [b]
    ensures |runs| > NDIRECT
  {
    PackNext(BlocksOf(addrs), b);
    PackOptimal(BlocksOf(addrs) + [b], runs);
  }
}
