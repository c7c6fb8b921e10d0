/** The physical redo log of log.c, seen from the disk.

    A block write is one atomic step.  A commit, and a recovery, is the list of
    block writes it issues; a crash is a prefix of that list.  The durable state
    of a disk is what a complete recovery would leave in the home blocks. */
module RedoLog {
  import opened Common

  const LOGSIZE := 30
  const BLOCK_WORDS := 128

  /** A block as its 32-bit words; the header block is {n, block[0], block[1], ...}. */
  type Block = seq<nat>
  type Disk = seq<Block>

  /** log.start and log.size: the header is block `start`, slot i is block `start + 1 + i`. */
  datatype Region = Region(start: nat, size: nat)

  datatype Write = Write(addr: nat, data: Block)

  predicate InLog(g: Region, b: nat) {
    g.start <= b < g.start + g.size
  }

  /** One bwrite(). */
  function Perform(d: Disk, w: Write): Disk {
    if w.addr < |d| then d[w.addr := w.data] else d
  }

  function Replay(d: Disk, ws: seq<Write>): Disk
    decreases |ws|
  {
    if ws == [] then d else Perform(Replay(d, ws[..|ws| - 1]), ws[|ws| - 1])
  }

  /** A block list that a transaction may log: distinct home blocks, at most as
      many as the header and the log region can hold. */
  ghost predicate HomeList(limit: nat, g: Region, lh: seq<nat>) {
    && |lh| <= LOGSIZE
    && |lh| < g.size
    && Distinct(lh)
    && forall i :: 0 <= i < |lh| ==> lh[i] < limit && !InLog(g, lh[i])
  }

  predicate RegionOk(d: Disk, g: Region) {
    && 1 <= g.size
    && g.start + g.size <= |d|
    && |d[g.start]| == BLOCK_WORDS
  }

  ghost predicate HeadOk(d: Disk, g: Region) {
    && RegionOk(d, g)
    && d[g.start][0] <= LOGSIZE
    && HomeList(|d|, g, d[g.start][1..1 + d[g.start][0]])
  }

  /** What read_head() brings into memory. */
  function Entries(d: Disk, g: Region): seq<nat>
    requires RegionOk(d, g)
  {
    var head := d[g.start];
    if head[0] < BLOCK_WORDS then head[1..1 + head[0]] else []
  }

  /** The slots of the list are on the disk, in the log region or, for a list that has overrun
      it, beyond: recovery reads them all the same. */
  predicate SlotsFit(d: Disk, g: Region) {
    RegionOk(d, g) && g.start + 1 + |Entries(d, g)| <= |d|
  }

  /** What write_head() writes: the words after the list keep their old value. */
  function EncodeHead(was: Block, lh: seq<nat>): Block
    requires |was| == BLOCK_WORDS && |lh| < BLOCK_WORDS
  {
    [|lh|] + lh + was[1 + |lh|..]
  }

  lemma HeadRoundTrip(d: Disk, g: Region, lh: seq<nat>)
    requires RegionOk(d, g) && HomeList(|d|, g, lh)
    ensures var d' := d[g.start := EncodeHead(d[g.start], lh)];
            HeadOk(d', g) && Entries(d', g) == lh
  {
    var d' := d[g.start := EncodeHead(d[g.start], lh)];
    assert d'[g.start][0] == |lh|;
    assert d'[g.start][1..1 + |lh|] == lh;
  }

  /** `h` holds, in every home block, what a complete recovery of `d` would leave there. */
  ghost predicate Durable(d: Disk, g: Region, h: Disk) {
    && HeadOk(d, g)
    && |h| == |d|
    && (forall i :: 0 <= i < |Entries(d, g)| ==> h[Entries(d, g)[i]] == d[g.start + 1 + i])
    && (forall b :: 0 <= b < |d| && !InLog(g, b) && b !in Entries(d, g) ==> h[b] == d[b])
  }

  ghost predicate SameHome(g: Region, x: Disk, y: Disk) {
    |x| == |y| && forall b :: 0 <= b < |x| && !InLog(g, b) ==> x[b] == y[b]
  }

  /** A disk with `vals` written to the blocks of `lh`: the result the transaction asks for. */
  ghost function Updated(d: Disk, lh: seq<nat>, vals: map<nat, Block>): (r: Disk)
    requires forall b :: b in lh ==> b in vals
    ensures |r| == |d|
  {
    seq(|d|, b requires 0 <= b < |d| => if b in lh then vals[b] else d[b])
  }

  /** Only the home blocks of `h` matter. */
  lemma DurableHome(d: Disk, g: Region, h: Disk, h': Disk)
    requires Durable(d, g, h) && SameHome(g, h, h')
    ensures Durable(d, g, h')
  {
  }

  // ----------------------------------------------------------------- the write lists

  /** write_log(). */
  function LogWrites(g: Region, lh: seq<nat>, vals: map<nat, Block>): seq<Write>
    requires forall b :: b in lh ==> b in vals
  {
    seq(|lh|, i requires 0 <= i < |lh| => assert lh[i] in lh; Write(g.start + 1 + i, vals[lh[i]]))
  }

  /** install_trans(): copy slot i to its home block. */
  function InstallWrites(lh: seq<nat>, slots: seq<Block>): seq<Write>
    requires |lh| == |slots|
  {
    seq(|lh|, i requires 0 <= i < |lh| => Write(lh[i], slots[i]))
  }

  function Values(lh: seq<nat>, vals: map<nat, Block>): seq<Block>
    requires forall b :: b in lh ==> b in vals
  {
    seq(|lh|, i requires 0 <= i < |lh| => assert lh[i] in lh; vals[lh[i]])
  }

  /** commit() of a non-empty transaction. */
  function CommitWrites(d: Disk, g: Region, lh: seq<nat>, vals: map<nat, Block>): seq<Write>
    requires RegionOk(d, g) && |lh| <= LOGSIZE
    requires forall b :: b in lh ==> b in vals
  {
    var head := EncodeHead(d[g.start], lh);
    LogWrites(g, lh, vals) + [Write(g.start, head)]
    + InstallWrites(lh, Values(lh, vals)) + [Write(g.start, EncodeHead(head, []))]
  }

  /** recover_from_log(). */
  function RecoverWrites(d: Disk, g: Region): seq<Write>
    requires SlotsFit(d, g)
  {
    var lh := Entries(d, g);
    InstallWrites(lh, d[g.start + 1..g.start + 1 + |lh|]) + [Write(g.start, EncodeHead(d[g.start], []))]
  }

  // ----------------------------------------------------------------- replay lemmas

  lemma ReplayNext(d: Disk, ws: seq<Write>, k: nat)
    requires k < |ws|
    ensures Replay(d, ws[..k + 1]) == Perform(Replay(d, ws[..k]), ws[k])
  {
    assert ws[..k + 1][..k] == ws[..k];
  }

  lemma {:induction false} ReplayLength(d: Disk, ws: seq<Write>)
    ensures |Replay(d, ws)| == |d|
    decreases |ws|
  {
    if ws != [] { ReplayLength(d, ws[..|ws| - 1]); }
  }

  lemma {:induction false} ReplayConcat(d: Disk, u: seq<Write>, v: seq<Write>)
    ensures Replay(d, u + v) == Replay(Replay(d, u), v)
    decreases |v|
  {
    if v == [] {
      assert u + v == u;
    } else {
      var v' := v[..|v| - 1];
      assert (u + v)[..|u + v| - 1] == u + v';
      ReplayConcat(d, u, v');
    }
  }

  /** While the log is being written nothing but the first k slots changes. */
  lemma {:induction false} LogPhase(d: Disk, g: Region, lh: seq<nat>, vals: map<nat, Block>, k: nat)
    requires RegionOk(d, g) && HomeList(|d|, g, lh) && k <= |lh|
    requires forall b :: b in lh ==> b in vals
    ensures var e := Replay(d, LogWrites(g, lh, vals)[..k]);
            && |e| == |d|
            && (forall i :: 0 <= i < k ==> e[g.start + 1 + i] == Values(lh, vals)[i])
            && (forall b :: 0 <= b < |d| && !(g.start < b <= g.start + k) ==> e[b] == d[b])
  {
    var ws := LogWrites(g, lh, vals);
    if k == 0 {
      assert ws[..0] == [];
    } else {
      LogPhase(d, g, lh, vals, k - 1);
      ReplayNext(d, ws, k - 1);
    }
  }

  /** After k installs, exactly the first k home blocks have changed. */
  lemma {:induction false} InstallPhase(d: Disk, g: Region, lh: seq<nat>, slots: seq<Block>, k: nat)
    requires RegionOk(d, g) && HomeList(|d|, g, lh) && |slots| == |lh| && k <= |lh|
    ensures var e := Replay(d, InstallWrites(lh, slots)[..k]);
            && |e| == |d|
            && (forall i :: 0 <= i < k ==> e[lh[i]] == slots[i])
            && (forall b :: 0 <= b < |d| && b !in lh[..k] ==> e[b] == d[b])
  {
    var ws := InstallWrites(lh, slots);
    if k == 0 {
      assert ws[..0] == [];
    } else {
      var j := k - 1;
      InstallPhase(d, g, lh, slots, j);
      ReplayNext(d, ws, j);
      assert ws[j] == Write(lh[j], slots[j]);
      Installed(d, Replay(d, ws[..j]), lh, slots, j);
    }
  }

  lemma Installed(d: Disk, e: Disk, lh: seq<nat>, slots: seq<Block>, j: nat)
    requires j < |lh| == |slots| && |e| == |d| && Distinct(lh) && forall i :: 0 <= i < |lh| ==> lh[i] < |d|
    requires (forall i :: 0 <= i < j ==> e[lh[i]] == slots[i]) && forall b :: 0 <= b < |d| && b !in lh[..j] ==> e[b] == d[b]
    ensures var e' := Perform(e, Write(lh[j], slots[j]));
            && |e'| == |d| && (forall i :: 0 <= i < j + 1 ==> e'[lh[i]] == slots[i])
            && (forall b :: 0 <= b < |d| && b !in lh[..j + 1] ==> e'[b] == d[b])
  {
    assert lh[..j + 1] == lh[..j] + [lh[j]];
  }

  // ----------------------------------------------------------------- recovery

  /** The state between two installs is as durable as the state before them. */
  lemma InstalledDurable(d: Disk, e: Disk, g: Region, lh: seq<nat>, k: nat, h: Disk)
    requires Durable(d, g, h) && lh == Entries(d, g) && k <= |lh|
    requires |e| == |d|
    requires forall b :: 0 <= b < |d| && InLog(g, b) ==> e[b] == d[b]
    requires forall i :: 0 <= i < k ==> e[lh[i]] == d[g.start + 1 + i]
    requires forall b :: 0 <= b < |d| && b !in lh[..k] ==> e[b] == d[b]
    ensures Durable(e, g, h) && Entries(e, g) == lh
  {
    assert e[g.start] == d[g.start];
    forall i | 0 <= i < |lh| ensures h[lh[i]] == e[g.start + 1 + i] {
      assert InLog(g, g.start + 1 + i);
    }
    forall b | 0 <= b < |e| && !InLog(g, b) && b !in lh ensures h[b] == e[b] {
      assert b !in lh[..k];
    }
  }

  lemma InstalledHome(d: Disk, e: Disk, g: Region, lh: seq<nat>, h: Disk)
    requires Durable(d, g, h) && lh == Entries(d, g)
    requires |e| == |d|
    requires forall i :: 0 <= i < |lh| ==> e[lh[i]] == d[g.start + 1 + i]
    requires forall b :: 0 <= b < |d| && b !in lh ==> e[b] == d[b]
    ensures SameHome(g, e, h)
  {
    forall b | 0 <= b < |e| && !InLog(g, b) ensures e[b] == h[b] {
      if b in lh {
        var i :| 0 <= i < |lh| && lh[i] == b;
      }
    }
  }

  lemma ClearedDurable(e: Disk, g: Region, h: Disk)
    requires RegionOk(e, g) && SameHome(g, e, h)
    ensures var r := e[g.start := EncodeHead(e[g.start], [])];
            Durable(r, g, h) && Entries(r, g) == [] && SameHome(g, r, h)
  {
    HeadRoundTrip(e, g, []);
  }

  lemma RecoverInstalls(d: Disk, g: Region, k: nat, h: Disk)
    requires Durable(d, g, h) && k <= |Entries(d, g)|
    ensures var e := Replay(d, RecoverWrites(d, g)[..k]);
            && Durable(e, g, h) && Entries(e, g) == Entries(d, g) && e[g.start] == d[g.start]
            && (k == |Entries(d, g)| ==> SameHome(g, e, h))
  {
    hide Replay, SameHome, RecoverWrites, InstallWrites, Durable, Entries, HomeList;
    DurableList(d, g, h);
    var lh := Entries(d, g);
    var slots := d[g.start + 1..g.start + 1 + |lh|];
    RecoverPrefix(d, g, k);
    InstallPhase(d, g, lh, slots, k);
    PartlyInstalled(d, Replay(d, InstallWrites(lh, slots)[..k]), g, lh, slots, k, h);
  }

  lemma DurableList(d: Disk, g: Region, h: Disk)
    requires Durable(d, g, h)
    ensures RegionOk(d, g) && HomeList(|d|, g, Entries(d, g)) && |Entries(d, g)| < g.size && g.start + g.size <= |d|
  {
  }

  lemma PartlyInstalled(d: Disk, e: Disk, g: Region, lh: seq<nat>, slots: seq<Block>, k: nat, h: Disk)
    requires Durable(d, g, h) && lh == Entries(d, g) && k <= |lh| && |e| == |d| && g.start + 1 + |lh| <= |d|
    requires slots == d[g.start + 1..g.start + 1 + |lh|]
    requires forall i :: 0 <= i < k ==> e[lh[i]] == slots[i]
    requires forall b :: 0 <= b < |d| && b !in lh[..k] ==> e[b] == d[b]
    ensures Durable(e, g, h) && Entries(e, g) == lh && e[g.start] == d[g.start]
    ensures k == |lh| ==> SameHome(g, e, h)
  {
    forall b | 0 <= b < |d| && InLog(g, b) ensures e[b] == d[b] {
      assert b !in lh[..k];
    }
    forall i | 0 <= i < k ensures e[lh[i]] == d[g.start + 1 + i] {
      assert slots[i] == d[g.start + 1 + i];
    }
    assert InLog(g, g.start);
    InstalledDurable(d, e, g, lh, k, h);
    if k == |lh| {
      assert lh[..k] == lh;
      InstalledHome(d, e, g, lh, h);
    }
  }

  lemma RecoverPrefix(d: Disk, g: Region, k: nat)
    requires SlotsFit(d, g) && k <= |Entries(d, g)|
    ensures var lh := Entries(d, g);
            var inst := InstallWrites(lh, d[g.start + 1..g.start + 1 + |lh|]);
            |inst| == |lh| && k <= |RecoverWrites(d, g)| && RecoverWrites(d, g)[..k] == inst[..k]
  {
  }

  /** Any prefix of recovery keeps the durable state, and all of it makes the home
      blocks equal to that state: recovery is idempotent under crashes. */
  lemma RecoverStep(d: Disk, g: Region, k: nat, h: Disk)
    requires Durable(d, g, h) && k <= |RecoverWrites(d, g)|
    ensures var e := Replay(d, RecoverWrites(d, g)[..k]);
            && Durable(e, g, h)
            && (k == |RecoverWrites(d, g)| ==> Entries(e, g) == [] && SameHome(g, e, h))
  {
    hide Replay, EncodeHead, SameHome, InstallWrites;
    var n, ws := |Entries(d, g)|, RecoverWrites(d, g);
    LastIsHeader(d, g);
    if k <= n {
      RecoverInstalls(d, g, k, h);
    } else {
      RecoverInstalls(d, g, n, h);
      var e := Replay(d, ws[..n]);
      ReplayNext(d, ws, n);
      assert Replay(d, ws[..k]) == e[g.start := EncodeHead(e[g.start], [])];
      ClearedDurable(e, g, h);
    }
  }

  lemma LastIsHeader(d: Disk, g: Region)
    requires SlotsFit(d, g)
    ensures var n, ws := |Entries(d, g)|, RecoverWrites(d, g);
            |ws| == n + 1 && ws[n] == Write(g.start, EncodeHead(d[g.start], []))
  {
  }

  /** `e` is what a recovery of `d` leaves when it is cut off after some number of writes. */
  ghost predicate RecoveryCut(d: Disk, g: Region, e: Disk) {
    && SlotsFit(d, g)
    && exists k :: 0 <= k <= |RecoverWrites(d, g)| && e == Replay(d, RecoverWrites(d, g)[..k])
  }

  /** A chain of reboots, each with a recovery that may be cut off. */
  ghost predicate Reboots(g: Region, chain: seq<Disk>) {
    chain != [] && forall i :: 0 < i < |chain| ==> RecoveryCut(chain[i - 1], g, chain[i])
  }

  lemma {:induction false} RebootsDurable(g: Region, chain: seq<Disk>, h: Disk)
    requires Reboots(g, chain) && Durable(chain[0], g, h)
    ensures Durable(chain[|chain| - 1], g, h)
    decreases |chain|
  {
    if |chain| > 1 {
      var n := |chain| - 1;
      var rest := chain[..n];
      assert forall i :: 0 <= i < n ==> rest[i] == chain[i];
      RebootsDurable(g, rest, h);
      assert RecoveryCut(chain[n - 1], g, chain[n]);
      var k :| 0 <= k <= |RecoverWrites(chain[n - 1], g)|
               && chain[n] == Replay(chain[n - 1], RecoverWrites(chain[n - 1], g)[..k]);
      RecoverStep(chain[n - 1], g, k, h);
    }
  }

  // ----------------------------------------------------------------- commit

  /** The writes of a commit up to and including the header. */
  function CommitHalf(d: Disk, g: Region, lh: seq<nat>, vals: map<nat, Block>): (u: seq<Write>)
    requires RegionOk(d, g) && |lh| <= LOGSIZE
    requires forall b :: b in lh ==> b in vals
    ensures |u| == |lh| + 1
  {
    LogWrites(g, lh, vals) + [Write(g.start, EncodeHead(d[g.start], lh))]
  }

  /** The disk at the commit point: all slots and the header written, no home block. */
  lemma CommitPoint(d: Disk, g: Region, lh: seq<nat>, vals: map<nat, Block>) returns (c: Disk)
    requires HeadOk(d, g) && HomeList(|d|, g, lh)
    requires forall b :: b in lh ==> b in vals
    ensures c == Replay(d, CommitHalf(d, g, lh, vals)) && |c| == |d|
    ensures HeadOk(c, g) && Entries(c, g) == lh && c[g.start] == EncodeHead(d[g.start], lh)
    ensures forall i :: 0 <= i < |lh| ==> c[g.start + 1 + i] == Values(lh, vals)[i]
    ensures forall b :: 0 <= b < |d| && !InLog(g, b) ==> c[b] == d[b]
  {
    var logw := LogWrites(g, lh, vals);
    var u := CommitHalf(d, g, lh, vals);
    LogPhase(d, g, lh, vals, |lh|);
    assert logw[..|lh|] == logw && u[..|lh|] == logw && u[..|lh| + 1] == u;
    ReplayNext(d, u, |lh|);
    c := Replay(d, u);
    HeadRoundTrip(Replay(d, logw), g, lh);
  }

  /** From the commit point on, a commit issues exactly the writes of a recovery. */
  lemma CommitIsRecovery(d: Disk, g: Region, lh: seq<nat>, vals: map<nat, Block>, c: Disk)
    requires HeadOk(d, g) && HomeList(|d|, g, lh)
    requires forall b :: b in lh ==> b in vals
    requires HeadOk(c, g) && Entries(c, g) == lh && c[g.start] == EncodeHead(d[g.start], lh)
    requires forall i :: 0 <= i < |lh| ==> c[g.start + 1 + i] == Values(lh, vals)[i]
    ensures CommitWrites(d, g, lh, vals) == CommitHalf(d, g, lh, vals) + RecoverWrites(c, g)
  {
    assert c[g.start + 1..g.start + 1 + |lh|] == Values(lh, vals);
    assert CommitWrites(d, g, lh, vals)
        == CommitHalf(d, g, lh, vals)
         + (InstallWrites(lh, Values(lh, vals)) + [Write(g.start, EncodeHead(c[g.start], []))]);
  }

  lemma CommittedDurable(d: Disk, c: Disk, g: Region, lh: seq<nat>, vals: map<nat, Block>)
    requires HomeList(|d|, g, lh)
    requires forall b :: b in lh ==> b in vals
    requires HeadOk(c, g) && Entries(c, g) == lh && |c| == |d|
    requires forall i :: 0 <= i < |lh| ==> c[g.start + 1 + i] == Values(lh, vals)[i]
    requires forall b :: 0 <= b < |d| && !InLog(g, b) ==> c[b] == d[b]
    ensures Durable(c, g, Updated(d, lh, vals))
  {
    forall i | 0 <= i < |lh| ensures Updated(d, lh, vals)[lh[i]] == c[g.start + 1 + i] {
      assert lh[i] in lh && c[g.start + 1 + i] == Values(lh, vals)[i];
    }
  }

  lemma LogCutDurable(d: Disk, g: Region, lh: seq<nat>, vals: map<nat, Block>, k: nat)
    requires HeadOk(d, g) && Entries(d, g) == []
    requires HomeList(|d|, g, lh) && k <= |lh|
    requires forall b :: b in lh ==> b in vals
    ensures var e := Replay(d, CommitWrites(d, g, lh, vals)[..k]);
            Durable(e, g, d) && Entries(e, g) == []
  {
    var logw := LogWrites(g, lh, vals);
    assert CommitWrites(d, g, lh, vals)[..k] == logw[..k];
    LogPhase(d, g, lh, vals, k);
    assert Replay(d, logw[..k])[g.start] == d[g.start];
  }

  /** After k writes of a commit the durable state is the old one up to and
      including the last log slot, and the new one from the header write on. */
  lemma CommitStep(d: Disk, g: Region, lh: seq<nat>, vals: map<nat, Block>, k: nat)
    requires HeadOk(d, g) && Entries(d, g) == []
    requires HomeList(|d|, g, lh)
    requires forall b :: b in lh ==> b in vals
    requires k <= |CommitWrites(d, g, lh, vals)|
    ensures var e := Replay(d, CommitWrites(d, g, lh, vals)[..k]);
            var h := if k <= |lh| then d else Updated(d, lh, vals);
            && Durable(e, g, h)
            && (k == |CommitWrites(d, g, lh, vals)| ==> Entries(e, g) == [] && SameHome(g, e, h))
  {
    if k <= |lh| {
      LogCutDurable(d, g, lh, vals, k);
    } else {
      var u := CommitHalf(d, g, lh, vals);
      var c := CommitPoint(d, g, lh, vals);
      CommitIsRecovery(d, g, lh, vals, c);
      CommittedDurable(d, c, g, lh, vals);
      CommitTail(d, g, CommitWrites(d, g, lh, vals), u, c, k, Updated(d, lh, vals));
    }
  }

  lemma CommitTail(d: Disk, g: Region, ws: seq<Write>, u: seq<Write>, c: Disk, k: nat, h: Disk)
    requires c == Replay(d, u) && Durable(c, g, h)
    requires ws == u + RecoverWrites(c, g) && |u| <= k <= |ws|
    ensures var e := Replay(d, ws[..k]);
            && Durable(e, g, h)
            && (k == |ws| ==> Entries(e, g) == [] && SameHome(g, e, h))
  {
    var v := RecoverWrites(c, g);
    assert ws[..k] == u + v[..k - |u|];
    ReplayConcat(d, u, v[..k - |u|]);
    RecoverStep(c, g, k - |u|, h);
  }

  /** Crash atomicity.  Stop a commit after any number k of block writes, reboot any
      number of times with crashes inside recovery, then let one recovery finish: the
      header is empty, and the home blocks are all old when the header write had not
      happened (k <= n) and all new when it had. */
  lemma CrashAtomicity(d: Disk, g: Region, lh: seq<nat>, vals: map<nat, Block>, k: nat, chain: seq<Disk>)
    requires HeadOk(d, g) && Entries(d, g) == []
    requires HomeList(|d|, g, lh)
    requires forall b :: b in lh ==> b in vals
    requires k <= |CommitWrites(d, g, lh, vals)|
    requires Reboots(g, chain) && chain[0] == Replay(d, CommitWrites(d, g, lh, vals)[..k])
    ensures var f := chain[|chain| - 1];
            && HeadOk(f, g)
            && var r := Replay(f, RecoverWrites(f, g));
            && HeadOk(r, g) && Entries(r, g) == []
            && SameHome(g, r, if k <= |lh| then d else Updated(d, lh, vals))
  {
    CommitStep(d, g, lh, vals, k);
    var h := if k <= |lh| then d else Updated(d, lh, vals);
    RebootsDurable(g, chain, h);
    var f := chain[|chain| - 1];
    var ws := RecoverWrites(f, g);
    RecoverStep(f, g, |ws|, h);
    assert ws[..|ws|] == ws;
  }
}
