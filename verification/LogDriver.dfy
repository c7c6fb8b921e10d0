/** log.c as the code that runs it: the in-memory header, the loops over it, and the
    block writes they issue, proved against the write lists of RedoLog. */
module LogDriver {
  import opened RedoLog

  class Log {
    const g: Region
    /** Disk contents, and the dirty cached blocks that bread() returns in their place. */
    var disk: Disk
    var pending: map<nat, Block>
    /** log.lh */
    var n: nat
    var block: array<nat>
    var outstanding: int
    /** Every bwrite so far. */
    ghost var trace: seq<Write>

    predicate Shape()
      reads this
    {
      RegionOk(disk, g) && block.Length == LOGSIZE && n <= LOGSIZE
    }

    ghost predicate Valid()
      reads this, block
    {
      Shape() && HomeList(|disk|, g, List())
    }

    function List(): seq<nat>
      reads this, block
    {
      if n <= block.Length then block[..n] else []
    }

    constructor (disk: Disk, g: Region)
      requires RegionOk(disk, g)
      ensures Valid() && fresh(block) && n == 0 && this.disk == disk && this.g == g
      ensures pending == map[] && trace == [] && outstanding == 0
    {
      this.g, this.disk, pending, n, outstanding, trace := g, disk, map[], 0, 0, [];
      block := new nat[LOGSIZE](i => 0);
    }

    method Bread(b: nat) returns (data: Block)
      requires b < |disk|
      ensures data == if b in pending then pending[b] else disk[b]
    {
      data := if b in pending then pending[b] else disk[b];
    }

    /** iderw() of a dirty buffer: the block reaches the disk and is no longer dirty. */
    method Bwrite(b: nat, data: Block)
      requires b < |disk|
      modifies this`disk, this`pending, this`trace
      ensures disk == Perform(old(disk), Write(b, data))
      ensures pending == old(pending) - {b}
      ensures trace == old(trace) + [Write(b, data)]
    {
      disk, pending, trace := disk[b := data], pending - {b}, trace + [Write(b, data)];
    }

    /** The same write as the next entry of a list of writes being carried out. */
    method BwriteNext(b: nat, data: Block, ghost d0: Disk, ghost t0: seq<Write>, ghost ws: seq<Write>, ghost k: nat)
      requires k < |ws| && ws[k] == Write(b, data) && b < |disk|
      requires disk == Replay(d0, ws[..k]) && trace == t0 + ws[..k]
      modifies this`disk, this`pending, this`trace
      ensures disk == Replay(d0, ws[..k + 1]) && trace == t0 + ws[..k + 1]
      ensures |disk| == |old(disk)| && pending == old(pending) - {b}
    {
      Bwrite(b, data);
      ReplayNext(d0, ws, k);
      assert ws[..k + 1] == ws[..k] + [ws[k]];
    }

    method WriteHead()
      requires Shape() && g.start !in pending
      modifies this`disk, this`pending, this`trace
      ensures var w := Write(g.start, EncodeHead(old(disk)[g.start], List()));
              && disk == Perform(old(disk), w) && trace == old(trace) + [w]
      ensures Shape() && |disk| == |old(disk)| && pending == old(pending)
      ensures disk[g.start][0] == n && (forall i :: 0 <= i < n ==> disk[g.start][1 + i] == block[i])
      ensures forall j :: 1 + n <= j < BLOCK_WORDS ==> disk[g.start][j] == old(disk)[g.start][j]
    {
      var hb := Bread(g.start);
      ghost var was := hb;
      hb := hb[0 := n];
      for i := 0 to n
        invariant |hb| == BLOCK_WORDS && hb[0] == n
        invariant hb[1..1 + i] == block[..i] && hb[1 + i..] == was[1 + i..]
      {
        hb := hb[1 + i := block[i]];
        assert block[..i + 1] == block[..i] + [block[i]];
      }
      assert hb == [n] + block[..n] + was[1 + n..];
      Bwrite(g.start, hb);
    }

    method ReadHead()
      requires Valid() && HeadOk(disk, g) && g.start !in pending
      modifies this`n, block
      ensures Valid() && List() == Entries(disk, g)
    {
      var lh := Bread(g.start);
      n := lh[0];
      for i := 0 to n
        invariant n == lh[0] && block[..i] == lh[1..1 + i]
      {
        block[i] := lh[1 + i];
        assert block[..i + 1] == block[..i] + [lh[1 + i]];
      }
    }

    /** write_log(): one slot write for each entry of the list, in order, with the cached data. */
    method WriteLog()
      requires Valid()
      requires forall b :: b in List() ==> b in pending
      requires forall b :: b in pending ==> !InLog(g, b)
      modifies this`disk, this`pending, this`trace
      ensures disk == Replay(old(disk), LogWrites(g, List(), old(pending)))
      ensures trace == old(trace) + LogWrites(g, List(), old(pending))
      ensures |disk| == |old(disk)| && pending == old(pending) && disk[g.start] == old(disk)[g.start]
    {
      ghost var lh := List();
      ghost var ws := LogWrites(g, lh, pending);
      for tail := 0 to n
        invariant pending == old(pending) && |disk| == |old(disk)|
        invariant disk == Replay(old(disk), ws[..tail]) && trace == old(trace) + ws[..tail]
      {
        assert lh[tail] in lh;
        var from := Bread(block[tail]);
        BwriteNext(g.start + tail + 1, from, old(disk), old(trace), ws, tail);
      }
      assert ws[..n] == ws;
      LogPhase(old(disk), g, lh, pending, n);
    }

    /** install_trans(): each slot is read back and written to the block the list names for it. */
    method InstallTrans(ghost slots: seq<Block>)
      requires Valid() && slots == disk[g.start + 1..g.start + 1 + n]
      requires forall b :: b in pending ==> !InLog(g, b)
      modifies this`disk, this`pending, this`trace
      ensures disk == Replay(old(disk), InstallWrites(List(), slots))
      ensures trace == old(trace) + InstallWrites(List(), slots)
      ensures |disk| == |old(disk)| && disk[g.start] == old(disk)[g.start]
      ensures forall b :: b in pending ==> b in old(pending) && b !in List()
    {
      hide Replay, InstallWrites;
      ghost var lh := List();
      ghost var ws := InstallWrites(lh, slots);
      InstallList(lh, slots);
      NoWrites(old(disk), old(trace), ws);
      for tail := 0 to n
        invariant |disk| == |old(disk)|
        invariant disk == Replay(old(disk), ws[..tail]) && trace == old(trace) + ws[..tail]
        invariant forall b :: b in pending ==> b in old(pending) && b !in lh[..tail]
      {
        InstallReads(old(disk), g, lh, slots, tail);
        assert ws[tail] == Write(block[tail], slots[tail]);
        var lbuf := Bread(g.start + tail + 1);
        BwriteNext(block[tail], lbuf, old(disk), old(trace), ws, tail);
        assert lh[..tail + 1] == lh[..tail] + [block[tail]];
      }
      assert ws[..n] == ws && lh[..n] == lh;
      InstallReads(old(disk), g, lh, slots, n);
    }

    /** The common end of commit() and recover_from_log(): install, then clear the header. */
    method InstallAndClear()
      requires Valid() && HeadOk(disk, g) && List() == Entries(disk, g)
      requires forall b :: b in pending ==> b in List()
      modifies this`disk, this`pending, this`trace, this`n
      ensures Valid() && n == 0 && pending == map[]
      ensures disk == Replay(old(disk), RecoverWrites(old(disk), g))
      ensures trace == old(trace) + RecoverWrites(old(disk), g)
    {
      hide Replay, InstallWrites, EncodeHead, RecoverWrites;
      ghost var d, t, lh, slots := disk, trace, List(), disk[g.start + 1..g.start + 1 + n];
      RecoverList(d, g, lh, slots);
      InstallTrans(slots);
      assert forall b :: b !in pending;
      n := 0;
      assert List() == [];
      WriteHead();
      ReplayLast(d, InstallWrites(lh, slots), Write(g.start, EncodeHead(d[g.start], [])), t);
      assert forall b :: b !in pending;
    }

    /** write_log() and write_head(): everything up to the commit point. */
    method WriteToLog()
      requires Valid()
      requires forall b :: b in pending <==> b in List()
      modifies this`disk, this`pending, this`trace
      ensures Valid() && pending == old(pending)
      ensures disk == Replay(old(disk), CommitHalf(old(disk), g, List(), pending))
      ensures trace == old(trace) + CommitHalf(old(disk), g, List(), pending)
    {
      WriteLog();
      WriteHead();
      ReplayLast(old(disk), LogWrites(g, List(), pending), Write(g.start, EncodeHead(old(disk)[g.start], List())), old(trace));
    }

    /** commit(): issues exactly the writes whose every prefix RedoLog.CrashAtomicity covers. */
    method Commit()
      requires Valid() && HeadOk(disk, g)
      requires forall b :: b in pending <==> b in List()
      modifies this`disk, this`pending, this`trace, this`n
      ensures Valid() && n == 0 && pending == map[]
      ensures var ws := if old(n) == 0 then [] else CommitWrites(old(disk), g, old(List()), old(pending));
              disk == Replay(old(disk), ws) && trace == old(trace) + ws
    {
      if n > 0 {
        CommitInTwo(disk, g, List(), pending, trace);
        WriteToLog();
        InstallAndClear();
      } else {
        assert pending == map[];
      }
    }

    /** recover_from_log(): issues exactly RecoverWrites, and empties the header. */
    method RecoverFromLog()
      requires Valid() && HeadOk(disk, g) && pending == map[]
      modifies this`disk, this`pending, this`trace, this`n, block
      ensures Valid() && n == 0 && pending == map[]
      ensures disk == Replay(old(disk), RecoverWrites(old(disk), g))
      ensures trace == old(trace) + RecoverWrites(old(disk), g)
    {
      ReadHead();
      InstallAndClear();
    }

    /** log_write(): panics on a full list, otherwise records the block once and pins its content. */
    method LogWrite(b: nat, data: Block) returns (panic: bool)
      requires Valid() && b < |disk| && !InLog(g, b)
      modifies this`n, this`pending, block
      ensures panic <==> old(n) >= LOGSIZE || old(n) >= g.size - 1 || outstanding < 1
      ensures panic ==> n == old(n) && pending == old(pending) && List() == old(List())
      ensures !panic ==>
        && Valid()
        && List() == (if b in old(List()) then old(List()) else old(List()) + [b])
        && pending == old(pending)[b := data]
    {
      if n >= LOGSIZE || n >= g.size - 1 { return true; }
      if outstanding < 1 { return true; }
      var i := 0;
      while i < n && block[i] != b
        invariant 0 <= i <= n && b !in block[..i]
      {
        assert block[..i + 1] == block[..i] + [block[i]];
        i := i + 1;
      }
      ghost var lh := List();
      block[i] := b;
      if i == n {
        n := n + 1;
        assert block[..n] == lh + [b];
      } else {
        assert lh[i] in lh;
        assert block[..n] == lh;
      }
      pending := pending[b := data];
      panic := false;
    }
  }

  lemma InstallList(lh: seq<nat>, slots: seq<Block>)
    requires |lh| == |slots|
    ensures |InstallWrites(lh, slots)| == |lh|
    ensures forall i :: 0 <= i < |lh| ==> InstallWrites(lh, slots)[i] == Write(lh[i], slots[i])
  {
  }

  /** The writes of a recovery, from the list and the slots it reads. */
  lemma RecoverList(d: Disk, g: Region, lh: seq<nat>, slots: seq<Block>)
    requires HeadOk(d, g) && lh == Entries(d, g) && g.start + 1 + |lh| <= |d| && slots == d[g.start + 1..g.start + 1 + |lh|]
    ensures RecoverWrites(d, g) == InstallWrites(lh, slots) + [Write(g.start, EncodeHead(d[g.start], []))]
  {
  }

  lemma NoWrites(d: Disk, trace: seq<Write>, ws: seq<Write>)
    ensures Replay(d, ws[..0]) == d && trace + ws[..0] == trace
  {
  }

  /** Installing does not disturb the slots that are still to be read, nor the header. */
  lemma InstallReads(d: Disk, g: Region, lh: seq<nat>, slots: seq<Block>, k: nat)
    requires RegionOk(d, g) && HomeList(|d|, g, lh) && k <= |lh|
    requires slots == d[g.start + 1..g.start + 1 + |lh|]
    ensures var e := Replay(d, InstallWrites(lh, slots)[..k]);
            && |e| == |d| && e[g.start] == d[g.start]
            && (k < |lh| ==> e[g.start + 1 + k] == slots[k])
  {
    InstallPhase(d, g, lh, slots, k);
    assert g.start !in lh[..k];
    if k < |lh| {
      assert InLog(g, g.start + 1 + k) && g.start + 1 + k !in lh[..k];
    }
  }

  lemma CommitInTwo(d: Disk, g: Region, lh: seq<nat>, vals: map<nat, Block>, trace: seq<Write>)
    requires HeadOk(d, g) && HomeList(|d|, g, lh)
    requires forall b :: b in lh ==> b in vals
    ensures var u := CommitHalf(d, g, lh, vals);
            var c := Replay(d, u);
            var ws := CommitWrites(d, g, lh, vals);
            && HeadOk(c, g) && Entries(c, g) == lh
            && Replay(d, ws) == Replay(c, RecoverWrites(c, g))
            && trace + ws == trace + u + RecoverWrites(c, g)
  {
    var c := CommitPoint(d, g, lh, vals);
    CommitIsRecovery(d, g, lh, vals, c);
    ReplaySplit(d, CommitWrites(d, g, lh, vals), CommitHalf(d, g, lh, vals), RecoverWrites(c, g), trace);
  }

  lemma ReplayLast(d: Disk, u: seq<Write>, w: Write, trace: seq<Write>)
    ensures Replay(d, u + [w]) == Perform(Replay(d, u), w)
    ensures trace + (u + [w]) == trace + u + [w]
  {
    assert (u + [w])[..|u|] == u;
  }

  lemma ReplaySplit(d: Disk, ws: seq<Write>, u: seq<Write>, v: seq<Write>, trace: seq<Write>)
    requires ws == u + v
    ensures Replay(d, ws) == Replay(Replay(d, u), v)
    ensures trace + ws == trace + u + v
  {
    ReplayConcat(d, u, v);
  }
}
