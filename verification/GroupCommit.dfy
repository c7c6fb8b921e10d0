/** begin_op / log_write / end_op / commit of log.c as a transition system in which
    any number of processes, the disk, crashes and recovery interleave freely.

    log_write is two steps, as in the source: the test of lh.n is made before the
    log lock is taken, the append under the lock. */
module GroupCommit {
  import opened RedoLog

  const MAXOPBLOCKS := 10

  /** Where a process is: outside, asleep in begin_op, inside an operation after
      `calls` log_write calls, inside log_write past its test, or inside commit()
      after `done` block writes. */
  datatype Pc = Idle | Waiting | InOp(calls: nat) | Checked(calls: nat) | Committing(done: nat)

  /** `base` is the disk when the current commit or recovery began; `durable` is the
      home content as of the last header write. */
  datatype State =
    | Up(disk: Disk, pending: map<nat, Block>, lh: seq<nat>, outstanding: int, committing: bool,
         procs: seq<Pc>, base: Disk, durable: Disk)
    | Recovering(disk: Disk, done: nat, base: Disk, durable: Disk)
    | Panicked

  datatype Event =
    | Wait(p: nat) | Begin(p: nat) | Check(p: nat) | Append(p: nat, b: nat, data: Block) | End(p: nat)
    | DiskWrite(p: nat) | Finish(p: nat) | Crash | RecoverWrite | RecoverDone(nprocs: nat)

  /** The log region, and a bound on the log_write calls of one operation. */
  datatype Config = Config(g: Region, limit: nat)

  // ----------------------------------------------------------------- steps

  function Script(c: Config, s: State): seq<Write>
    requires s.Up? && RegionOk(s.base, c.g)
    requires |s.lh| <= LOGSIZE && forall b :: b in s.lh ==> b in s.pending
  {
    if s.lh == [] then [] else CommitWrites(s.base, c.g, s.lh, s.pending)
  }

  predicate MustWait(s: State)
    requires s.Up?
  {
    s.committing || |s.lh| + (s.outstanding + 1) * MAXOPBLOCKS > LOGSIZE
  }

  ghost predicate Enabled(c: Config, s: State, e: Event) {
    match s
    case Panicked => false
    case Recovering(disk, done, base, _) =>
      && SlotsFit(base, c.g)
      && (match e
          case Crash => true
          case RecoverWrite => done < |RecoverWrites(base, c.g)|
          case RecoverDone(_) => done == |RecoverWrites(base, c.g)|
          case _ => false)
    case Up(disk, pending, lh, _, _, procs, base, _) =>
      match e
      case Crash => true
      case Wait(p) => p < |procs| && procs[p].Idle? && MustWait(s)
      case Begin(p) => p < |procs| && procs[p].Idle? && !MustWait(s)
      case Check(p) => p < |procs| && procs[p].InOp? && procs[p].calls < c.limit
      case Append(p, b, _) => p < |procs| && procs[p].Checked? && b < |disk| && !InLog(c.g, b)
      case End(p) => p < |procs| && procs[p].InOp?
      case DiskWrite(p) =>
        && p < |procs| && procs[p].Committing?
        && RegionOk(base, c.g) && |lh| <= LOGSIZE && (forall b :: b in lh ==> b in pending)
        && procs[p].done < |Script(c, s)|
      case Finish(p) =>
        && p < |procs| && procs[p].Committing?
        && RegionOk(base, c.g) && |lh| <= LOGSIZE && (forall b :: b in lh ==> b in pending)
        && procs[p].done == |Script(c, s)|
      case _ => false
  }

  /** wakeup(&log). */
  function Wake(procs: seq<Pc>): (r: seq<Pc>)
    ensures |r| == |procs|
    ensures forall i :: 0 <= i < |procs| ==> r[i] == (if procs[i].Waiting? then Idle else procs[i])
  {
    seq(|procs|, i requires 0 <= i < |procs| => if procs[i].Waiting? then Idle else procs[i])
  }

  ghost function Step(c: Config, s: State, e: Event): State
    requires Enabled(c, s, e)
  {
    match e
    case Crash => Recovering(s.disk, 0, s.disk, s.durable)
    case RecoverWrite => s.(disk := Perform(s.disk, RecoverWrites(s.base, c.g)[s.done]), done := s.done + 1)
    case RecoverDone(n) => Up(s.disk, map[], [], 0, false, seq(n, i => Idle), s.disk, s.durable)
    case Wait(p) => s.(procs := s.procs[p := Waiting])
    case Begin(p) => s.(procs := s.procs[p := InOp(0)], outstanding := s.outstanding + 1)
    case Check(p) =>
      if |s.lh| >= LOGSIZE || |s.lh| >= c.g.size - 1 then Panicked
      else if s.outstanding < 1 then Panicked
      else s.(procs := s.procs[p := Checked(s.procs[p].calls)])
    case Append(p, b, data) =>
      s.(lh := if b in s.lh then s.lh else s.lh + [b],
         pending := s.pending[b := data],
         procs := s.procs[p := InOp(s.procs[p].calls + 1)])
    case End(p) =>
      if s.committing then Panicked
      else if s.outstanding - 1 == 0 then
        s.(outstanding := 0, committing := true, procs := s.procs[p := Committing(0)], base := s.disk)
      else
        s.(outstanding := s.outstanding - 1, procs := Wake(s.procs[p := Idle]))
    case DiskWrite(p) =>
      var k := s.procs[p].done;
      s.(disk := Perform(s.disk, Script(c, s)[k]),
         procs := s.procs[p := Committing(k + 1)],
         durable := if k == |s.lh| then Updated(s.durable, s.lh, s.pending) else s.durable)
    case Finish(p) =>
      s.(pending := map[], lh := [], committing := false, procs := Wake(s.procs[p := Idle]))
  }

  ghost predicate Init(c: Config, s: State) {
    && s.Up?
    && HeadOk(s.disk, c.g) && Entries(s.disk, c.g) == []
    && s.pending == map[] && s.lh == [] && s.outstanding == 0 && !s.committing
    && (forall i :: 0 <= i < |s.procs| ==> s.procs[i] == Idle)
    && s.durable == s.disk
  }

  ghost predicate Next(c: Config, s: State, e: Event, t: State) {
    Enabled(c, s, e) && t == Step(c, s, e)
  }

  ghost predicate IsRun(c: Config, states: seq<State>, events: seq<Event>) {
    && |states| == |events| + 1
    && Init(c, states[0])
    && forall i :: 0 <= i < |events| ==> Next(c, states[i], events[i], states[i + 1])
  }

  // ----------------------------------------------------------------- counting processes

  /** How many processes are in an operation, how many are in commit(), and how many
      log_write calls the operations in progress may still make. */
  datatype Tally = Tally(active: nat, commits: nat, left: nat)

  function TallyOf(limit: nat, pc: Pc): Tally {
    if pc.InOp? || pc.Checked? then Tally(1, 0, if pc.calls <= limit then limit - pc.calls else 0)
    else Tally(0, if pc.Committing? then 1 else 0, 0)
  }

  function Count(limit: nat, procs: seq<Pc>): Tally {
    if procs == [] then Tally(0, 0, 0) else
    var t := TallyOf(limit, procs[0]);
    var r := Count(limit, procs[1..]);
    Tally(t.active + r.active, t.commits + r.commits, t.left + r.left)
  }

  lemma {:induction false} CountUpdate(limit: nat, procs: seq<Pc>, p: nat, pc: Pc)
    requires p < |procs|
    ensures var t, t' := TallyOf(limit, procs[p]), TallyOf(limit, pc);
            var r, r' := Count(limit, procs), Count(limit, procs[p := pc]);
            && r.active - t.active == r'.active - t'.active >= 0
            && r.commits - t.commits == r'.commits - t'.commits >= 0
            && r.left - t.left == r'.left - t'.left >= 0
  {
    if p == 0 {
      assert procs[p := pc][1..] == procs[1..];
    } else {
      assert procs[p := pc][1..] == procs[1..][p - 1 := pc];
      CountUpdate(limit, procs[1..], p - 1, pc);
    }
  }

  lemma {:induction false} CountWake(limit: nat, procs: seq<Pc>)
    ensures Count(limit, Wake(procs)) == Count(limit, procs)
  {
    if procs != [] {
      assert Wake(procs)[1..] == Wake(procs[1..]);
      CountWake(limit, procs[1..]);
    }
  }

  lemma {:induction false} CountIdle(limit: nat, procs: seq<Pc>)
    requires forall i :: 0 <= i < |procs| ==> procs[i] == Idle
    ensures Count(limit, procs) == Tally(0, 0, 0)
  {
    if procs != [] { CountIdle(limit, procs[1..]); }
  }

  lemma {:induction false} LeftBound(limit: nat, procs: seq<Pc>)
    ensures Count(limit, procs).left <= limit * Count(limit, procs).active
  {
    if procs != [] {
      LeftBound(limit, procs[1..]);
      var a := Count(limit, procs[1..]).active;
      assert limit * (a + 1) == limit * a + limit;
    }
  }

  /** A process that commits is the only one. */
  lemma {:induction false} OneCommitter(limit: nat, procs: seq<Pc>, p: nat, q: nat)
    requires Count(limit, procs).commits <= 1
    requires p < |procs| && q < |procs| && procs[p].Committing? && procs[q].Committing?
    ensures p == q
  {
    if p != q {
      CountUpdate(limit, procs, p, Idle);
      CountUpdate(limit, procs[p := Idle], q, Idle);
    }
  }

  // ----------------------------------------------------------------- the invariant

  ghost predicate Counters(c: Config, s: State)
    requires s.Up?
  {
    var t := Count(c.limit, s.procs);
    && s.outstanding == t.active
    && t.commits == (if s.committing then 1 else 0)
    && (s.committing ==> s.outstanding == 0)
    && (!s.committing && s.outstanding == 0 ==> s.lh == [])
    && |s.lh| + t.left <= MAXOPBLOCKS + 2 * c.limit
    && (forall i :: 0 <= i < |s.procs| ==> CallsOk(c, s.procs[i]))
  }

  predicate CallsOk(c: Config, pc: Pc) {
    (pc.InOp? ==> pc.calls <= c.limit) && (pc.Checked? ==> pc.calls < c.limit)
  }

  ghost predicate LogList(c: Config, s: State)
    requires s.Up?
  {
    && HomeList(|s.disk|, c.g, s.lh)
    && (forall b :: b in s.pending <==> b in s.lh)
  }

  /** The disk between commits, and after `done` writes of a commit. */
  ghost predicate OnDisk(c: Config, s: State)
    requires s.Up? && LogList(c, s)
  {
    && (!s.committing ==>
          HeadOk(s.disk, c.g) && Entries(s.disk, c.g) == [] && SameHome(c.g, s.disk, s.durable))
    && (forall p :: 0 <= p < |s.procs| && s.procs[p].Committing? ==> MidCommit(c, s, s.procs[p].done))
  }

  ghost predicate MidCommit(c: Config, s: State, k: nat)
    requires s.Up? && LogList(c, s)
  {
    && |s.base| == |s.disk| && HeadOk(s.base, c.g) && Entries(s.base, c.g) == []
    && k <= |Script(c, s)|
    && s.disk == Replay(s.base, Script(c, s)[..k])
    && SameHome(c.g, s.durable, if k <= |s.lh| then s.base else Updated(s.base, s.lh, s.pending))
  }

  ghost predicate Inv(c: Config, s: State) {
    match s
    case Panicked => false
    case Up(_, _, _, _, _, _, _, _) => Counters(c, s) && LogList(c, s) && OnDisk(c, s)
    case Recovering(disk, k, base, durable) =>
      && Durable(base, c.g, durable) && k <= |RecoverWrites(base, c.g)|
      && disk == Replay(base, RecoverWrites(base, c.g)[..k])
  }

  /** Enough log blocks for every operation that begin_op admits. */
  predicate Roomy(c: Config) {
    c.limit <= MAXOPBLOCKS && 2 * c.limit + MAXOPBLOCKS < c.g.size
  }

  lemma InitInv(c: Config, s: State)
    requires Init(c, s) && Roomy(c)
    ensures Inv(c, s)
  {
    CountIdle(c.limit, s.procs);
  }

  /** A step that touches only the process table, and no committer, keeps the disk part. */
  lemma DiskFrame(c: Config, s: State, t: State)
    requires s.Up? && t.Up? && LogList(c, s) && OnDisk(c, s)
    requires t == s.(procs := t.procs, outstanding := t.outstanding)
    requires forall q :: 0 <= q < |t.procs| && t.procs[q].Committing? ==> q < |s.procs| && t.procs[q] == s.procs[q]
    ensures LogList(c, t) && OnDisk(c, t)
  {
    forall q | 0 <= q < |t.procs| && t.procs[q].Committing? ensures MidCommit(c, t, t.procs[q].done) {
      assert MidCommit(c, s, s.procs[q].done);
    }
  }

  lemma WaitInv(c: Config, s: State, p: nat)
    requires Inv(c, s) && Enabled(c, s, Wait(p))
    ensures Inv(c, Step(c, s, Wait(p)))
  {
    CountUpdate(c.limit, s.procs, p, Waiting);
    DiskFrame(c, s, Step(c, s, Wait(p)));
  }

  lemma Reserved(lh: nat, outstanding: nat, left: nat, limit: nat)
    requires limit <= MAXOPBLOCKS && left <= limit * (outstanding + 1)
    requires lh + (outstanding + 1) * MAXOPBLOCKS <= LOGSIZE
    requires outstanding == 0 ==> lh == 0
    ensures lh + left <= MAXOPBLOCKS + 2 * limit
  {
    if outstanding == 0 {
    } else if outstanding == 1 {
      assert left <= limit * 2;
    } else {
      assert outstanding == 2 && left <= limit * 3;
    }
  }

  /** The reservation of begin_op leaves room for every admitted call. */
  lemma BeginInv(c: Config, s: State, p: nat)
    requires Inv(c, s) && Roomy(c) && Enabled(c, s, Begin(p))
    ensures Inv(c, Step(c, s, Begin(p)))
  {
    CountUpdate(c.limit, s.procs, p, InOp(0));
    LeftBound(c.limit, s.procs[p := InOp(0)]);
    Reserved(|s.lh|, s.outstanding, Count(c.limit, s.procs[p := InOp(0)]).left, c.limit);
    DiskFrame(c, s, Step(c, s, Begin(p)));
  }

  /** Neither panic of log_write can be reached. */
  lemma CheckInv(c: Config, s: State, p: nat)
    requires Inv(c, s) && Roomy(c) && Enabled(c, s, Check(p))
    ensures Inv(c, Step(c, s, Check(p)))
  {
    var pc := Checked(s.procs[p].calls);
    CountUpdate(c.limit, s.procs, p, pc);
    assert |s.lh| < MAXOPBLOCKS + 2 * c.limit;
    DiskFrame(c, s, Step(c, s, Check(p)));
  }

  lemma NoCommitter(limit: nat, procs: seq<Pc>, p: nat)
    requires Count(limit, procs).commits == 0 && p < |procs|
    ensures !procs[p].Committing?
  {
    CountUpdate(limit, procs, p, Idle);
  }

  lemma AppendInv(c: Config, s: State, p: nat, b: nat, data: Block)
    requires Inv(c, s) && Roomy(c) && Enabled(c, s, Append(p, b, data))
    ensures Inv(c, Step(c, s, Append(p, b, data)))
  {
    var t := Step(c, s, Append(p, b, data));
    CountUpdate(c.limit, s.procs, p, InOp(s.procs[p].calls + 1));
    AppendList(c, s, t, b);
    forall q | 0 <= q < |t.procs| ensures !t.procs[q].Committing? {
      NoCommitter(c.limit, s.procs, q);
    }
  }

  /** Log absorption keeps the list free of duplicates. */
  lemma AppendList(c: Config, s: State, t: State, b: nat)
    requires s.Up? && t.Up? && LogList(c, s) && b < |s.disk| && !InLog(c.g, b)
    requires t.lh == (if b in s.lh then s.lh else s.lh + [b]) && t.disk == s.disk
    requires t.pending.Keys == s.pending.Keys + {b}
    requires |t.lh| <= LOGSIZE && |t.lh| < c.g.size
    ensures LogList(c, t)
  {
  }

  lemma EndInv(c: Config, s: State, p: nat)
    requires Inv(c, s) && Enabled(c, s, End(p))
    ensures Inv(c, Step(c, s, End(p)))
  {
    var t := Step(c, s, End(p));
    if s.outstanding == 1 {
      CountUpdate(c.limit, s.procs, p, Committing(0));
      assert Script(c, t)[..0] == [];
      forall q | 0 <= q < |t.procs| && t.procs[q].Committing? ensures MidCommit(c, t, t.procs[q].done) {
        if q != p { NoCommitter(c.limit, s.procs, q); }
      }
    } else {
      CountUpdate(c.limit, s.procs, p, Idle);
      CountWake(c.limit, s.procs[p := Idle]);
      DiskFrame(c, s, t);
    }
  }

  lemma ScriptNext(c: Config, s: State, t: State, k: nat)
    requires s.Up? && t.Up? && LogList(c, s) && MidCommit(c, s, k) && k < |Script(c, s)|
    requires t == s.(disk := Perform(s.disk, Script(c, s)[k]),
                     procs := t.procs,
                     durable := if k == |s.lh| then Updated(s.durable, s.lh, s.pending) else s.durable)
    ensures LogList(c, t) && MidCommit(c, t, k + 1)
  {
    ReplayNext(s.base, Script(c, s), k);
    ReplayLength(s.base, Script(c, s)[..k + 1]);
    assert Script(c, t) == Script(c, s);
  }

  lemma DiskWriteCounters(c: Config, s: State, p: nat)
    requires s.Up? && Counters(c, s) && Enabled(c, s, DiskWrite(p))
    ensures Counters(c, Step(c, s, DiskWrite(p)))
  {
    CountUpdate(c.limit, s.procs, p, Committing(s.procs[p].done + 1));
  }

  lemma DiskWriteInv(c: Config, s: State, p: nat)
    requires Inv(c, s) && Enabled(c, s, DiskWrite(p))
    ensures Inv(c, Step(c, s, DiskWrite(p)))
  {
    hide Counters, LogList, MidCommit, OnDisk, Count;
    var t := Step(c, s, DiskWrite(p));
    var k := s.procs[p].done;
    CommitterState(c, s, p);
    DiskWriteCounters(c, s, p);
    ScriptNext(c, s, t, k);
    StillCommitting(c, s, t, p);
  }

  lemma CommitterState(c: Config, s: State, p: nat)
    requires s.Up? && Inv(c, s) && p < |s.procs| && s.procs[p].Committing?
    ensures LogList(c, s) && MidCommit(c, s, s.procs[p].done) && s.committing && Count(c.limit, s.procs).commits <= 1
  {
    CountUpdate(c.limit, s.procs, p, Idle);
  }

  lemma StillCommitting(c: Config, s: State, t: State, p: nat)
    requires s.Up? && t.Up? && p < |s.procs| && s.procs[p].Committing? && Count(c.limit, s.procs).commits <= 1
    requires |t.procs| == |s.procs| && t.procs == s.procs[p := t.procs[p]] && t.procs[p].Committing? && t.committing
    requires LogList(c, t) && MidCommit(c, t, t.procs[p].done)
    ensures OnDisk(c, t)
  {
    hide MidCommit, LogList;
    forall q | 0 <= q < |t.procs| && t.procs[q].Committing? ensures q == p {
      if q != p { OneCommitter(c.limit, s.procs, p, q); }
    }
  }

  /** At every point of a commit the disk recovers to `durable`. */
  lemma MidCommitDurable(c: Config, s: State, k: nat)
    requires s.Up? && LogList(c, s) && MidCommit(c, s, k)
    ensures Durable(s.disk, c.g, s.durable)
    ensures k == |Script(c, s)| ==> Entries(s.disk, c.g) == [] && SameHome(c.g, s.disk, s.durable)
  {
    if s.lh == [] {
      assert Script(c, s)[..k] == [];
    } else {
      CommitStep(s.base, c.g, s.lh, s.pending, k);
      DurableHome(s.disk, c.g, if k <= |s.lh| then s.base else Updated(s.base, s.lh, s.pending), s.durable);
    }
  }

  lemma FinishInv(c: Config, s: State, p: nat)
    requires Inv(c, s) && Enabled(c, s, Finish(p))
    ensures Inv(c, Step(c, s, Finish(p)))
  {
    var t := Step(c, s, Finish(p));
    CountUpdate(c.limit, s.procs, p, Idle);
    CountWake(c.limit, s.procs[p := Idle]);
    MidCommitDurable(c, s, s.procs[p].done);
    forall q | 0 <= q < |t.procs| ensures !t.procs[q].Committing? {
      NoCommitter(c.limit, t.procs, q);
    }
  }

  lemma HasCommitter(limit: nat, procs: seq<Pc>) returns (p: nat)
    requires Count(limit, procs).commits > 0
    ensures p < |procs| && procs[p].Committing?
  {
    if procs[0].Committing? {
      p := 0;
    } else {
      p := HasCommitter(limit, procs[1..]);
      p := p + 1;
    }
  }

  /** In every state of the invariant, a crash now would recover to `durable`. */
  lemma CrashRecovers(c: Config, s: State)
    requires Inv(c, s)
    ensures !s.Panicked? && Durable(s.disk, c.g, s.durable)
  {
    match s
    case Up(disk, _, _, _, _, procs, _, _) =>
      if s.committing {
        var p := HasCommitter(c.limit, procs);
        MidCommitDurable(c, s, procs[p].done);
      }
    case Recovering(disk, k, base, durable) =>
      RecoverStep(base, c.g, k, durable);
  }

  lemma RecoverInv(c: Config, s: State, e: Event)
    requires Inv(c, s) && s.Recovering? && Enabled(c, s, e) && !e.Crash?
    requires Roomy(c)
    ensures Inv(c, Step(c, s, e))
  {
    var ws := RecoverWrites(s.base, c.g);
    RecoverStep(s.base, c.g, s.done, s.durable);
    if e.RecoverWrite? {
      ReplayNext(s.base, ws, s.done);
    } else {
      var t := Step(c, s, e);
      CountIdle(c.limit, t.procs);
    }
  }

  lemma CrashInv(c: Config, s: State)
    requires Inv(c, s)
    ensures Enabled(c, s, Crash) && Inv(c, Step(c, s, Crash))
  {
    CrashRecovers(c, s);
    var t := Step(c, s, Crash);
    assert RecoverWrites(t.base, c.g)[..0] == [];
  }

  lemma StepInv(c: Config, s: State, e: Event)
    requires Inv(c, s) && Roomy(c) && Enabled(c, s, e)
    ensures Inv(c, Step(c, s, e))
  {
    match e
    case Wait(p) => WaitInv(c, s, p);
    case Begin(p) => BeginInv(c, s, p);
    case Check(p) => CheckInv(c, s, p);
    case Append(p, b, data) => AppendInv(c, s, p, b, data);
    case End(p) => EndInv(c, s, p);
    case DiskWrite(p) => DiskWriteInv(c, s, p);
    case Finish(p) => FinishInv(c, s, p);
    case Crash => CrashInv(c, s);
    case RecoverWrite => RecoverInv(c, s, e);
    case RecoverDone(_) => RecoverInv(c, s, e);
  }

  lemma {:induction false} RunInv(c: Config, states: seq<State>, events: seq<Event>, i: nat)
    requires IsRun(c, states, events) && Roomy(c) && i < |states|
    ensures Inv(c, states[i])
  {
    if i == 0 {
      InitInv(c, states[0]);
    } else {
      RunInv(c, states, events, i - 1);
      assert Next(c, states[i - 1], events[i - 1], states[i]);
      StepInv(c, states[i - 1], events[i - 1]);
    }
  }

  // ----------------------------------------------------------------- waiting in begin_op

  /** A process is asleep in begin_op only as long as begin_op has to wait. */
  ghost predicate Rested(s: State) {
    s.Up? ==> forall p :: 0 <= p < |s.procs| && s.procs[p].Waiting? ==> MustWait(s)
  }

  /** Every step that ends the wait wakes whoever waits. */
  lemma StepRested(c: Config, s: State, e: Event)
    requires Rested(s) && Enabled(c, s, e)
    ensures Rested(Step(c, s, e))
  {
  }

  lemma {:induction false} RunRested(c: Config, states: seq<State>, events: seq<Event>, i: nat)
    requires IsRun(c, states, events) && i < |states|
    ensures Rested(states[i])
  {
    if i > 0 {
      var j := i - 1;
      RunRested(c, states, events, j);
      assert Next(c, states[j], events[j], states[j + 1]);
      StepRested(c, states[j], events[j]);
    }
  }

  predicate Busy(pc: Pc) {
    pc.InOp? || pc.Checked? || pc.Committing?
  }

  lemma HasActive(limit: nat, procs: seq<Pc>) returns (p: nat)
    requires Count(limit, procs).active > 0
    ensures p < |procs| && (procs[p].InOp? || procs[p].Checked?)
  {
    if procs[0].InOp? || procs[0].Checked? {
      p := 0;
    } else {
      p := HasActive(limit, procs[1..]);
      p := p + 1;
    }
  }

  /** Whoever waits, waits for a process that is busy. */
  lemma WaitsForBusy(c: Config, s: State, p: nat) returns (q: nat)
    requires s.Up? && Counters(c, s) && Rested(s) && p < |s.procs| && s.procs[p].Waiting?
    ensures q < |s.procs| && Busy(s.procs[q])
  {
    if s.committing {
      q := HasCommitter(c.limit, s.procs);
    } else {
      q := HasActive(c.limit, s.procs);
    }
  }

  /** Nobody is stuck: a process that is not asleep has a step to take, whatever the others do,
      and one that is asleep waits for a process that has. */
  lemma NoDeadlock(c: Config, s: State, p: nat)
    requires Inv(c, s) && s.Up? && Rested(s) && p < |s.procs|
    ensures s.procs[p].Idle? ==> Enabled(c, s, Wait(p)) || Enabled(c, s, Begin(p))
    ensures s.procs[p].InOp? ==> Enabled(c, s, End(p))
    ensures s.procs[p].Checked? ==> forall b: nat, data: Block :: b < |s.disk| && !InLog(c.g, b) ==> Enabled(c, s, Append(p, b, data))
    ensures s.procs[p].Committing? ==> Enabled(c, s, DiskWrite(p)) || Enabled(c, s, Finish(p))
    ensures s.procs[p].Waiting? ==> exists q :: 0 <= q < |s.procs| && Busy(s.procs[q])
  {
    if s.procs[p].Waiting? {
      var q := WaitsForBusy(c, s, p);
    }
    if s.procs[p].Committing? {
      CommitterState(c, s, p);
    }
  }

  // ----------------------------------------------------------------- whole runs

  /** Safety of group commit over every interleaving, with crashes and recoveries
      anywhere: no panic is reached, committing implies that no operation is
      outstanding, the logged list has no duplicates and fits header and region, a
      crash in any state recovers exactly to the last committed home content, and a
      process asleep in begin_op still has to wait. */
  lemma Safety(c: Config, states: seq<State>, events: seq<Event>, i: nat)
    requires IsRun(c, states, events) && Roomy(c) && i < |states|
    ensures !states[i].Panicked?
    ensures Durable(states[i].disk, c.g, states[i].durable)
    ensures states[i].Up? && states[i].committing ==> states[i].outstanding == 0
    ensures states[i].Up? ==> HomeList(|states[i].disk|, c.g, states[i].lh)
    ensures states[i].Up? ==> forall p :: 0 <= p < |states[i].procs| && states[i].procs[p].Waiting? ==> MustWait(states[i])
  {
    RunInv(c, states, events, i);
    RunRested(c, states, events, i);
    CrashRecovers(c, states[i]);
  }

  /** What is durable changes only at a header write, and then by the whole group:
      every block logged since the last commit, with its latest content. */
  lemma AtomicGroups(c: Config, s: State, e: Event)
    requires Inv(c, s) && Roomy(c) && Enabled(c, s, e)
    ensures var t := Step(c, s, e);
            && !t.Panicked?
            && (t.durable == s.durable
                || (e.DiskWrite? && s.committing && s.outstanding == 0
                    && t.durable == Updated(s.durable, s.lh, s.pending)))
  {
    StepInv(c, s, e);
    if e.DiskWrite? {
      CountUpdate(c.limit, s.procs, e.p, Idle);
    }
  }

  /** The latest content of each block logged since the last commit or crash, from the events alone. */
  function Logged(events: seq<Event>): map<nat, Block> {
    if events == [] then map[]
    else
      var last := |events| - 1;
      match events[last]
      case Append(_, b, data) => Logged(events[..last])[b := data]
      case Finish(_) => map[]
      case Crash => map[]
      case RecoverDone(_) => map[]
      case _ => Logged(events[..last])
  }

  lemma {:induction false} PendingLatest(c: Config, states: seq<State>, events: seq<Event>, i: nat)
    requires IsRun(c, states, events) && i < |states| && states[i].Up?
    ensures states[i].pending == Logged(events[..i])
  {
    if i > 0 {
      var j := i - 1;
      assert Next(c, states[j], events[j], states[j + 1]);
      assert events[..i][..j] == events[..j];
      if states[j].Up? { PendingLatest(c, states, events, j); }
    }
  }

  /** From one state of a run to the next, the durable content either stays or takes in, at
      once, the latest content of every block logged since the last commit, and nothing else. */
  lemma GroupsDurable(c: Config, states: seq<State>, events: seq<Event>, i: nat)
    requires IsRun(c, states, events) && Roomy(c) && i < |events|
    ensures !states[i].Panicked? && !states[i + 1].Panicked?
    ensures var d, d', log := states[i].durable, states[i + 1].durable, Logged(events[..i]);
            || d' == d
            || (events[i].DiskWrite? && |d'| == |d| && forall b :: 0 <= b < |d| ==> d'[b] == if b in log then log[b] else d[b])
  {
    RunInv(c, states, events, i);
    assert Next(c, states[i], events[i], states[i + 1]);
    AtomicGroups(c, states[i], events[i]);
    if events[i].DiskWrite? { PendingLatest(c, states, events, i); }
  }

  /** When a commit finishes, all that was logged before it is durable. */
  lemma FinishDurable(c: Config, states: seq<State>, events: seq<Event>, i: nat, b: nat)
    requires IsRun(c, states, events) && Roomy(c) && i < |events| && events[i].Finish? && b in Logged(events[..i])
    ensures !states[i].Panicked? && b < |states[i].durable| && states[i].durable[b] == Logged(events[..i])[b]
  {
    RunInv(c, states, events, i);
    var s := states[i];
    assert Next(c, s, events[i], states[i + 1]);
    PendingLatest(c, states, events, i);
    CommitterState(c, s, events[i].p);
    assert b in s.lh && !InLog(c.g, b);
  }
}
