/** Group commit on a log of any size, the one mkfs makes included.  Whatever the size, the
    counters agree with the processes, the list has no duplicates and fits the header, and
    the only panic that can be reached is the test of log_write against log.size - 1. */
module GroupCounters {
  import opened Common
  import opened RedoLog
  import opened GroupCommit

  ghost predicate Counted(c: Config, s: State) {
    s.Up? ==> Counters(c, s) && Distinct(s.lh)
  }

  /** A step panics only in log_write, at the test against log.size - 1: the list is shorter
      than LOGSIZE, a transaction is open, and end_op is never called during a commit. */
  predicate PanicsAtSize(c: Config, s: State, e: Event) {
    e.Check? && s.Up? && c.g.size - 1 <= |s.lh| < LOGSIZE && s.outstanding >= 1
  }

  lemma CountedWait(c: Config, s: State, p: nat)
    requires Counted(c, s) && Enabled(c, s, Wait(p))
    ensures Counted(c, Step(c, s, Wait(p)))
  {
    CountUpdate(c.limit, s.procs, p, Waiting);
  }

  lemma CountedBegin(c: Config, s: State, p: nat)
    requires c.limit <= MAXOPBLOCKS && Counted(c, s) && Enabled(c, s, Begin(p))
    ensures Counted(c, Step(c, s, Begin(p)))
  {
    CountUpdate(c.limit, s.procs, p, InOp(0));
    LeftBound(c.limit, s.procs[p := InOp(0)]);
    Reserved(|s.lh|, s.outstanding, Count(c.limit, s.procs[p := InOp(0)]).left, c.limit);
  }

  lemma CountedCall(c: Config, s: State, e: Event)
    requires c.limit <= MAXOPBLOCKS && Counted(c, s) && Enabled(c, s, e) && (e.Check? || e.Append?)
    ensures Step(c, s, e).Panicked? ==> PanicsAtSize(c, s, e)
    ensures Counted(c, Step(c, s, e))
  {
    if e.Check? {
      CountUpdate(c.limit, s.procs, e.p, Checked(s.procs[e.p].calls));
    } else {
      CountUpdate(c.limit, s.procs, e.p, InOp(s.procs[e.p].calls + 1));
    }
  }

  lemma CountedCommit(c: Config, s: State, e: Event)
    requires Counted(c, s) && Enabled(c, s, e) && (e.DiskWrite? || e.Finish?)
    ensures Step(c, s, e).Up? && Counted(c, Step(c, s, e))
  {
    if e.DiskWrite? {
      CountUpdate(c.limit, s.procs, e.p, Committing(s.procs[e.p].done + 1));
    } else {
      CountUpdate(c.limit, s.procs, e.p, Idle);
      CountWake(c.limit, s.procs[e.p := Idle]);
    }
  }

  lemma CountedRecover(c: Config, s: State, e: Event)
    requires Counted(c, s) && Enabled(c, s, e) && (e.Crash? || e.RecoverWrite? || e.RecoverDone?)
    ensures !Step(c, s, e).Panicked? && Counted(c, Step(c, s, e))
  {
    if e.RecoverDone? {
      CountIdle(c.limit, Step(c, s, e).procs);
    }
  }

  lemma CountedStep(c: Config, s: State, e: Event)
    requires c.limit <= MAXOPBLOCKS && Counted(c, s) && Enabled(c, s, e)
    ensures Step(c, s, e).Panicked? ==> PanicsAtSize(c, s, e)
    ensures Counted(c, Step(c, s, e))
  {
    hide Counted;
    match e
    case Wait(p) => CountedWait(c, s, p);
    case Begin(p) => CountedBegin(c, s, p);
    case Check(p) => CountedCall(c, s, e);
    case Append(p, b, data) => CountedCall(c, s, e);
    case End(p) => CountedEnd(c, s, p);
    case DiskWrite(p) => CountedCommit(c, s, e);
    case Finish(p) => CountedCommit(c, s, e);
    case RecoverDone(n) => CountedRecover(c, s, e);
    case RecoverWrite => CountedRecover(c, s, e);
    case Crash => CountedRecover(c, s, e);
  }

  lemma CountedEnd(c: Config, s: State, p: nat)
    requires Counted(c, s) && Enabled(c, s, End(p))
    ensures Step(c, s, End(p)).Up? && Counted(c, Step(c, s, End(p)))
  {
    CountUpdate(c.limit, s.procs, p, Committing(0));
    CountUpdate(c.limit, s.procs, p, Idle);
    CountWake(c.limit, s.procs[p := Idle]);
  }

  /** Over every interleaving, with crashes and recoveries anywhere, on a log of any size. */
  lemma {:induction false} AnyLogSize(c: Config, states: seq<State>, events: seq<Event>, i: nat)
    requires IsRun(c, states, events) && c.limit <= MAXOPBLOCKS && i < |states|
    ensures Counted(c, states[i])
    ensures states[i].Up? && states[i].committing ==> states[i].outstanding == 0
    ensures states[i].Up? ==> Distinct(states[i].lh) && |states[i].lh| <= LOGSIZE
    ensures states[i].Panicked? ==> i > 0 && PanicsAtSize(c, states[i - 1], events[i - 1])
  {
    if i == 0 {
      CountIdle(c.limit, states[0].procs);
    } else {
      var j := i - 1;
      AnyLogSize(c, states, events, j);
      assert Next(c, states[j], events[j], states[j + 1]);
      CountedStep(c, states[j], events[j]);
    }
  }

  /** On a log of any size, a process asleep in begin_op still has to wait, and some process is
      busy whose end will wake it. */
  lemma Woken(c: Config, states: seq<State>, events: seq<Event>, i: nat, p: nat)
    requires IsRun(c, states, events) && c.limit <= MAXOPBLOCKS && i < |states|
    requires states[i].Up? && p < |states[i].procs| && states[i].procs[p].Waiting?
    ensures MustWait(states[i])
    ensures exists q :: 0 <= q < |states[i].procs| && Busy(states[i].procs[q])
  {
    AnyLogSize(c, states, events, i);
    RunRested(c, states, events, i);
    var q := WaitsForBusy(c, states[i], p);
  }
}
