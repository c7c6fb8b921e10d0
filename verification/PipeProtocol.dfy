/** Pipes and sleep/wakeup as a transition system: any number of processes read, write and
    close one pipe, each one step at a time.  Taking or dropping a lock is a step of its own,
    so that the hand-off in sleep (ptable.lock taken before the pipe's lock is dropped) is
    part of the model. */
module PipeProtocol {
  import opened Common

  const PIPESIZE := 512

  type Byte = bv8

  datatype Chan = NRead | NWrite

  /** pipewrite of buf having stored i bytes, begun when the pipe had taken `from` bytes; piperead
      of at most n bytes having copied got; pipeclose. */
  datatype Task =
    | Write(buf: seq<Byte>, i: nat, from: nat)
    | Read(n: nat, got: seq<Byte>)
    | Close(writable: bool)

  /** Where a process is inside its call:
      Want       about to acquire the pipe's lock
      Body       at the loop test of pipewrite or piperead, or before pipeclose clears its flag
      Copying    in the copy loop of piperead
      Waking     about to call wakeup, and then to sleep or to return
      Entering   in sleep, about to acquire ptable.lock
      Handoff    in sleep, with both locks, about to release the pipe's
      Falling    in sleep, with ptable.lock only, about to become SLEEPING
      Asleep, Woken
      Leaving    about to release the pipe's lock and return
      Freeing    in pipeclose, about to kfree the pipe */
  datatype Stage =
    | Want | Body | Copying | Waking(sleep: bool)
    | Entering | Handoff | Falling | Asleep | Woken
    | Leaving(result: int) | Freeing

  datatype Pc = Idle | In(task: Task, stage: Stage)

  /** The pipe, the two locks, which process closes which end, the process table; and all
      that was ever written to the pipe, by whom, and read from it. */
  datatype State = State(
    data: seq<Byte>, nread: nat, nwrite: nat, readopen: bool, writeopen: bool, freed: bool,
    lock: Option<nat>, ptable: Option<nat>, rcloser: Option<nat>, wcloser: Option<nat>,
    procs: seq<Pc>, written: seq<Byte>, writers: seq<nat>, consumed: seq<Byte>)

  function Init(procs: nat, junk: seq<Byte>): State {
    State(junk, 0, 0, true, true, false, None, None, None, None, seq(procs, i => Idle), [], [], [])
  }

  // ----------------------------------------------------------------- the ring buffer

  /** nwrite - nread in uint arithmetic. */
  function Used(s: State): nat {
    (s.nwrite - s.nread) % UINT
  }

  predicate Full(s: State) {
    s.nwrite == (s.nread + PIPESIZE) % UINT
  }

  predicate Empty(s: State) {
    s.nread == s.nwrite
  }

  function Slot(n: nat): (r: nat)
    ensures r < PIPESIZE
  {
    n % PIPESIZE
  }

  /** The bytes between the two counters, oldest first. */
  function Buffered(s: State): (r: seq<Byte>)
    requires |s.data| == PIPESIZE
    ensures |r| == Used(s)
  {
    seq(Used(s), k requires 0 <= k < Used(s) => s.data[Slot(s.nread + k)])
  }

  function Put(s: State, b: Byte, p: nat): State
    requires |s.data| == PIPESIZE
  {
    s.(data := s.data[Slot(s.nwrite) := b], nwrite := (s.nwrite + 1) % UINT,
       written := s.written + [b], writers := s.writers + [p])
  }

  function Get(s: State): State
    requires |s.data| == PIPESIZE
  {
    s.(nread := (s.nread + 1) % UINT, consumed := s.consumed + [s.data[Slot(s.nread)]])
  }

  /** What was read, followed by what is in the buffer, is what was written. */
  predicate Stream(s: State) {
    && |s.data| == PIPESIZE && s.nread < UINT && s.nwrite < UINT && Used(s) <= PIPESIZE
    && s.written == s.consumed + Buffered(s)
  }

  lemma FullEmpty(s: State)
    requires Stream(s)
    ensures Full(s) <==> Used(s) == PIPESIZE
    ensures Empty(s) <==> Used(s) == 0
  {
  }

  lemma PutStream(s: State, b: Byte, p: nat)
    requires Stream(s) && !Full(s)
    ensures Stream(Put(s, b, p)) && Used(Put(s, b, p)) == Used(s) + 1
  {
    hide Slot, Used;
    FullEmpty(s);
    PutUsed(s, b, p);
    var t := Put(s, b, p);
    forall k | 0 <= k < Used(t) ensures Buffered(t)[k] == (Buffered(s) + [b])[k] {
      Slots(s, k);
    }
    assert Buffered(t) == Buffered(s) + [b];
  }

  lemma PutUsed(s: State, b: Byte, p: nat)
    requires s.nread < UINT && s.nwrite < UINT && Used(s) < PIPESIZE && |s.data| == PIPESIZE
    ensures Used(Put(s, b, p)) == Used(s) + 1
  {
  }

  /** The slot written is that of the next byte, also where nwrite wraps round, and no other
      byte in the buffer has it. */
  lemma Slots(s: State, k: nat)
    requires s.nread < UINT && s.nwrite < UINT && k <= Used(s) < PIPESIZE
    ensures Slot(s.nread + k) == Slot(s.nwrite) <==> k == Used(s)
  {
    var used := Used(s);
    assert Slot(s.nread + used) == Slot(s.nwrite);
    if k < used {
      assert 0 < used - k < PIPESIZE;
    }
  }

  lemma NextSlot(n: nat, k: nat)
    requires n < UINT
    ensures Slot((n + 1) % UINT + k) == Slot(n + (k + 1))
  {
    if n + 1 == UINT {
      assert (n + (k + 1)) % PIPESIZE == (UINT + k) % PIPESIZE == k % PIPESIZE;
    }
  }

  lemma GetStream(s: State)
    requires Stream(s) && !Empty(s)
    ensures Stream(Get(s)) && Used(Get(s)) == Used(s) - 1
  {
    hide Slot, Used;
    GetUsed(s);
    var t := Get(s);
    assert Buffered(s) == [s.data[Slot(s.nread)]] + Buffered(t) by {
      forall k | 0 <= k < Used(t) ensures Buffered(t)[k] == Buffered(s)[k + 1] {
        NextSlot(s.nread, k);
      }
    }
  }

  lemma GetUsed(s: State)
    requires s.nread < UINT && s.nwrite < UINT && !Empty(s) && |s.data| == PIPESIZE
    ensures Used(s) > 0 && Used(Get(s)) == Used(s) - 1
  {
  }

  // ----------------------------------------------------------------- steps

  /** The channel a process sleeps on, and the one it wakes. */
  function SleepChan(t: Task): Chan {
    if t.Read? then NRead else NWrite
  }

  function WakeChan(t: Task): Chan {
    if t.Write? || (t.Close? && t.writable) then NRead else NWrite
  }

  /** wakeup1: every process sleeping on chan becomes runnable. */
  function WakeAll(procs: seq<Pc>, chan: Chan): (r: seq<Pc>)
    ensures |r| == |procs|
    ensures forall p :: 0 <= p < |procs| ==> r[p] == WakeOne(procs[p], chan)
  {
    seq(|procs|, p requires 0 <= p < |procs| => WakeOne(procs[p], chan))
  }

  function WakeOne(pc: Pc, chan: Chan): Pc {
    if pc.In? && pc.stage.Asleep? && SleepChan(pc.task) == chan then In(pc.task, Woken) else pc
  }

  function Goto(s: State, p: nat, pc: Pc): State
    requires p < |s.procs|
  {
    s.(procs := s.procs[p := pc])
  }

  function At(s: State, p: nat): Pc {
    if p < |s.procs| then s.procs[p] else Idle
  }

  /** A system call begins.  The last reference to an end goes when nobody is in a call that
      uses it, and after that nobody can make such a call. */
  ghost predicate Begin(s: State, t: State, p: nat, task: Task) {
    && p < |s.procs| && s.procs[p] == Idle
    && match task
       case Write(buf, i, from) => i == 0 && from == |s.written| && s.wcloser == None && t == Goto(s, p, In(task, Want))
       case Read(n, got) => got == [] && s.rcloser == None && t == Goto(s, p, In(task, Want))
       case Close(true) =>
         && s.wcloser == None && (forall q :: 0 <= q < |s.procs| ==> !Uses(s.procs[q], true))
         && t == Goto(s, p, In(task, Want)).(wcloser := Some(p))
       case Close(false) =>
         && s.rcloser == None && (forall q :: 0 <= q < |s.procs| ==> !Uses(s.procs[q], false))
         && t == Goto(s, p, In(task, Want)).(rcloser := Some(p))
  }

  predicate Uses(pc: Pc, writable: bool) {
    pc.In? && if writable then pc.task.Write? else pc.task.Read?
  }

  predicate Acquire(s: State, t: State, p: nat) {
    && At(s, p).In? && (s.procs[p].stage.Want? || s.procs[p].stage.Woken?) && s.lock == None
    && t == Goto(s, p, In(s.procs[p].task, Body)).(lock := Some(p))
  }

  predicate WriteStep(s: State, t: State, p: nat) {
    && |s.data| == PIPESIZE && At(s, p).In? && s.procs[p].stage.Body? && s.procs[p].task.Write?
    && var (buf, i) := (s.procs[p].task.buf, s.procs[p].task.i);
       if i >= |buf| then t == Goto(s, p, In(s.procs[p].task, Waking(false)))
       else if Full(s) then
         if !s.readopen then t == Goto(s, p, In(s.procs[p].task, Leaving(-1)))
         else t == Goto(s, p, In(s.procs[p].task, Waking(true)))
       else t == Goto(Put(s, buf[i], p), p, In(Write(buf, i + 1, s.procs[p].task.from), Body))
  }

  predicate ReadStep(s: State, t: State, p: nat) {
    && At(s, p).In? && s.procs[p].stage.Body? && s.procs[p].task.Read?
    && if Empty(s) && s.writeopen then t == Goto(s, p, In(s.procs[p].task, Entering))
       else t == Goto(s, p, In(s.procs[p].task, Copying))
  }

  predicate CopyStep(s: State, t: State, p: nat) {
    && |s.data| == PIPESIZE && At(s, p).In? && s.procs[p].stage.Copying? && s.procs[p].task.Read?
    && var (n, got) := (s.procs[p].task.n, s.procs[p].task.got);
       if |got| < n && !Empty(s)
       then t == Goto(Get(s), p, In(Read(n, got + [s.data[Slot(s.nread)]]), Copying))
       else t == Goto(s, p, In(s.procs[p].task, Waking(false)))
  }

  predicate CloseStep(s: State, t: State, p: nat) {
    && At(s, p).In? && s.procs[p].stage.Body? && s.procs[p].task.Close?
    && var s' := Goto(s, p, In(s.procs[p].task, Waking(false)));
       t == if s.procs[p].task.writable then s'.(writeopen := false) else s'.(readopen := false)
  }

  /** wakeup: the scan is atomic because it holds ptable.lock from start to end. */
  predicate WakeStep(s: State, t: State, p: nat) {
    && At(s, p).In? && s.procs[p].stage.Waking? && s.ptable == None
    && var task := s.procs[p].task;
       var woken := s.(procs := WakeAll(s.procs, WakeChan(task)));
       t == Goto(woken, p, In(task, if s.procs[p].stage.sleep then Entering else Leaving(ResultOf(task))))
  }

  function ResultOf(t: Task): int {
    match t
    case Write(buf, _, _) => |buf|
    case Read(_, got) => |got|
    case Close(_) => 0
  }

  predicate SleepStep(s: State, t: State, p: nat) {
    && At(s, p).In?
    && var task := s.procs[p].task;
       match s.procs[p].stage
       case Entering => s.ptable == None && t == Goto(s, p, In(task, Handoff)).(ptable := Some(p))
       case Handoff => t == Goto(s, p, In(task, Falling)).(lock := None)
       case Falling => t == Goto(s, p, In(task, Asleep)).(ptable := None)
       case _ => false
  }

  predicate LeaveStep(s: State, t: State, p: nat) {
    && At(s, p).In?
    && match s.procs[p].stage
       case Leaving(_) =>
         var last := s.procs[p].task.Close? && !s.readopen && !s.writeopen;
         t == Goto(s, p, if last then In(s.procs[p].task, Freeing) else Idle).(lock := None)
       case Freeing => t == Goto(s, p, Idle).(freed := true)
       case _ => false
  }

  ghost predicate Step(s: State, t: State) {
    exists p: nat :: StepOf(s, t, p)
  }

  ghost predicate StepOf(s: State, t: State, p: nat) {
    || (exists task :: Begin(s, t, p, task))
    || Acquire(s, t, p) || WriteStep(s, t, p) || ReadStep(s, t, p) || CopyStep(s, t, p) || CloseStep(s, t, p)
    || WakeStep(s, t, p) || SleepStep(s, t, p) || LeaveStep(s, t, p)
  }

  // ----------------------------------------------------------------- the invariant

  predicate HoldsLock(pc: Pc) {
    pc.In? && (pc.stage.Body? || pc.stage.Copying? || pc.stage.Waking? || pc.stage.Entering? || pc.stage.Handoff? || pc.stage.Leaving?)
  }

  predicate HoldsPtable(pc: Pc) {
    pc.In? && (pc.stage.Handoff? || pc.stage.Falling?)
  }

  /** On its way to sleep on chan, or asleep. */
  predicate Sleeper(pc: Pc, chan: Chan) {
    && pc.In? && SleepChan(pc.task) == chan
    && (pc.stage.Entering? || pc.stage.Handoff? || pc.stage.Falling? || pc.stage.Asleep?)
  }

  /** Before this process releases the pipe's lock it will call wakeup(chan). */
  predicate Owes(pc: Pc, chan: Chan) {
    && pc.In? && WakeChan(pc.task) == chan
    && (pc.stage.Waking? || (pc.task.Write? && pc.stage.Body?) || pc.stage.Copying?)
  }

  predicate Condition(s: State, chan: Chan) {
    match chan
    case NRead => Empty(s) && s.writeopen
    case NWrite => Full(s) && s.readopen
  }

  /** What sleepers on chan wait for is still missing, or the holder of the lock will wake them. */
  predicate NoLostWakeup(s: State, chan: Chan) {
    Condition(s, chan) || (s.lock.Some? && Owes(At(s, s.lock.value), chan))
  }

  /** Each call is in a stage that it has, and the ends are open as long as they can be used. */
  predicate Placed(s: State, p: nat) {
    var pc := At(s, p);
    pc.In? ==>
      && (pc.task.Write? ==> s.wcloser == None && !pc.stage.Copying? && !pc.stage.Freeing? && pc.task.i <= |pc.task.buf|)
      && (pc.stage.Waking? && pc.stage.sleep ==> Full(s) && s.readopen)
      && (pc.task.Read? ==> s.rcloser == None && !pc.stage.Freeing? && (pc.stage.Waking? ==> !pc.stage.sleep))
      && (pc.task.Close? ==>
            && (if pc.task.writable then s.wcloser == Some(p) else s.rcloser == Some(p))
            && (pc.stage.Want? || pc.stage.Body? || pc.stage.Waking? || pc.stage.Leaving? || pc.stage.Freeing?)
            && (pc.stage.Waking? ==> !pc.stage.sleep)
            && (pc.stage.Want? || pc.stage.Body? <==> if pc.task.writable then s.writeopen else s.readopen)
            && (pc.stage.Freeing? ==> !s.readopen && !s.writeopen))
  }

  /** The bytes a reader has copied are the last that were read; it stops when it has all it asked
      for or the pipe is empty, and copies nothing only at the end of the stream, or if it asked
      for nothing. */
  predicate Reads(s: State, p: nat) {
    var pc := At(s, p);
    pc.In? && pc.task.Read? ==>
      && |pc.task.got| <= pc.task.n
      && (pc.stage.Copying? || pc.stage.Waking? || pc.stage.Leaving? ==>
            && |pc.task.got| <= |s.consumed| && s.consumed[|s.consumed| - |pc.task.got|..] == pc.task.got)
      && (!(pc.stage.Copying? || pc.stage.Waking? || pc.stage.Leaving?) ==> pc.task.got == [])
      && (pc.stage.Copying? && pc.task.got == [] ==> !Empty(s) || !s.writeopen)
      && (pc.stage.Waking? || pc.stage.Leaving? ==> |pc.task.got| == pc.task.n || Empty(s))
      && ((pc.stage.Waking? || pc.stage.Leaving?) && pc.task.got == [] && pc.task.n > 0 ==> Empty(s) && !s.writeopen)
  }

  /** A write returns its length when it has stored all of it, and -1 only if the pipe is full
      and cannot be read. */
  predicate Returns(s: State, p: nat) {
    var pc := At(s, p);
    pc.In? && !pc.task.Close? ==>
      && (pc.task.Write? && pc.stage.Waking? && !pc.stage.sleep ==> pc.task.i == |pc.task.buf|)
      && (pc.task.Write? && pc.stage.Leaving? ==>
            || (pc.stage.result == |pc.task.buf| && pc.task.i == |pc.task.buf|)
            || (pc.stage.result == -1 && Full(s) && !s.readopen))
      && (pc.task.Read? && pc.stage.Leaving? ==> pc.stage.result == |pc.task.got|)
  }

  predicate Locks(s: State, p: nat) {
    && (HoldsLock(At(s, p)) <==> s.lock == Some(p))
    && (HoldsPtable(At(s, p)) <==> s.ptable == Some(p))
  }

  predicate Sleeps(s: State, p: nat) {
    && (Sleeper(At(s, p), NRead) ==> NoLostWakeup(s, NRead))
    && (Sleeper(At(s, p), NWrite) ==> NoLostWakeup(s, NWrite))
  }

  /** Once the pipe is being freed nobody else is in a call. */
  ghost predicate Released(s: State, p: nat) {
    && (s.freed ==> At(s, p) == Idle && !s.readopen && !s.writeopen)
    && (At(s, p).In? && At(s, p).stage.Freeing? ==> forall q: nat :: q != p ==> At(s, q) == Idle)
  }

  predicate Ends(s: State) {
    (s.wcloser == None ==> s.writeopen) && (s.rcloser == None ==> s.readopen)
  }

  ghost predicate ProcOk(s: State, p: nat) {
    Placed(s, p) && Reads(s, p) && Returns(s, p) && Locks(s, p) && Sleeps(s, p) && Released(s, p)
  }

  ghost predicate Inv(s: State) {
    Stream(s) && Ends(s) && forall p: nat :: ProcOk(s, p)
  }

  // ----------------------------------------------------------------- every step keeps it

  lemma InitInv(procs: nat, junk: seq<Byte>)
    requires |junk| == PIPESIZE
    ensures Inv(Init(procs, junk))
  {
    assert Buffered(Init(procs, junk)) == [];
  }

  lemma SameStream(s: State, t: State)
    requires Stream(s) && t.data == s.data && t.nread == s.nread && t.nwrite == s.nwrite
    requires t.written == s.written && t.consumed == s.consumed
    ensures Stream(t) && (Full(t) <==> Full(s)) && (Empty(t) <==> Empty(s))
  {
    assert Buffered(t) == Buffered(s);
  }

  lemma BeginInv(s: State, t: State, p: nat, task: Task)
    requires Inv(s) && Begin(s, t, p, task)
    ensures Inv(t)
  {
    hide Stream, Full, Empty, ProcOk;
    SameStream(s, t);
    forall q: nat ensures ProcOk(t, q) {
      BeginOk(s, t, p, task, q);
    }
  }

  lemma BeginOk(s: State, t: State, p: nat, task: Task, q: nat)
    requires Ends(s) && ProcOk(s, p) && ProcOk(s, q) && Begin(s, t, p, task) && (Full(t) <==> Full(s)) && (Empty(t) <==> Empty(s))
    ensures ProcOk(t, q)
  {
    hide Stream, Full, Empty;
    assert At(t, q) == if q == p then In(task, Want) else At(s, q);
    assert Placed(t, q) && Reads(t, q) && Returns(t, q) && Locks(t, q);
    assert Sleeps(t, q);
    assert Released(t, q);
  }

  lemma AcquireInv(s: State, t: State, p: nat)
    requires Inv(s) && Acquire(s, t, p)
    ensures Inv(t)
  {
    hide Stream, Full, Empty, ProcOk;
    SameStream(s, t);
    forall q: nat ensures ProcOk(t, q) {
      AcquireOk(s, t, p, q);
    }
  }

  lemma AcquireOk(s: State, t: State, p: nat, q: nat)
    requires Ends(s) && ProcOk(s, p) && ProcOk(s, q) && Acquire(s, t, p) && (Full(t) <==> Full(s)) && (Empty(t) <==> Empty(s))
    ensures ProcOk(t, q)
  {
    hide Stream, Full, Empty;
  }

  lemma WriteStepInv(s: State, t: State, p: nat)
    requires Inv(s) && WriteStep(s, t, p)
    ensures Inv(t)
  {
    hide Stream, Used, Full, Empty, ProcOk;
    FullEmpty(s);
    if !Full(s) && s.procs[p].task.i < |s.procs[p].task.buf| {
      var b := s.procs[p].task.buf[s.procs[p].task.i];
      PutStream(s, b, p);
      SameStream(Put(s, b, p), t);
    } else {
      SameStream(s, t);
    }
    forall q: nat ensures ProcOk(t, q) {
      WriteStepOk(s, t, p, q);
    }
  }

  /** A byte is stored only if there is room, so nobody sleeps on nwrite; a write gives up
      without waking readers only if there are none. */
  lemma WriteStepOk(s: State, t: State, p: nat, q: nat)
    requires Ends(s) && ProcOk(s, p) && ProcOk(s, q) && WriteStep(s, t, p)
    requires t.nwrite == s.nwrite ==> (Full(t) <==> Full(s)) && (Empty(t) <==> Empty(s))
    ensures ProcOk(t, q)
  {
    hide Stream, Full, Empty;
  }

  lemma ReadStepInv(s: State, t: State, p: nat)
    requires Inv(s) && ReadStep(s, t, p)
    ensures Inv(t)
  {
    hide Stream, Full, Empty, ProcOk;
    SameStream(s, t);
    forall q: nat ensures ProcOk(t, q) {
      ReadStepOk(s, t, p, q);
    }
  }

  lemma ReadStepOk(s: State, t: State, p: nat, q: nat)
    requires Ends(s) && ProcOk(s, p) && ProcOk(s, q) && ReadStep(s, t, p) && (Full(t) <==> Full(s)) && (Empty(t) <==> Empty(s))
    ensures ProcOk(t, q)
  {
    hide Stream, Full, Empty;
  }

  /** A reader takes a byte: it was not empty, so nobody sleeps on nread. */
  lemma GotByte(s: State, t: State, p: nat, q: nat)
    requires Ends(s) && ProcOk(s, p) && ProcOk(s, q) && CopyStep(s, t, p) && !Empty(s) && |s.procs[p].task.got| < s.procs[p].task.n
    ensures ProcOk(t, q)
  {
    hide Stream, Used, Full;
    assert q == p ==> Reads(t, q) by {
      var got, got' := s.procs[p].task.got, t.procs[p].task.got;
      assert t.consumed[|t.consumed| - |got'|..] == got';
    }
  }

  lemma CopyDone(s: State, t: State, p: nat, q: nat)
    requires Ends(s) && ProcOk(s, p) && ProcOk(s, q) && CopyStep(s, t, p) && (Empty(s) || |s.procs[p].task.got| >= s.procs[p].task.n)
    requires Full(t) <==> Full(s)
    ensures ProcOk(t, q)
  {
    hide Stream, Full;
  }

  lemma CopyStepInv(s: State, t: State, p: nat)
    requires Inv(s) && CopyStep(s, t, p)
    ensures Inv(t)
  {
    hide Stream, Used, ProcOk, Full;
    if !Empty(s) && |s.procs[p].task.got| < s.procs[p].task.n {
      GetStream(s);
      SameStream(Get(s), t);
      forall q: nat ensures ProcOk(t, q) {
        GotByte(s, t, p, q);
      }
    } else {
      SameStream(s, t);
      forall q: nat ensures ProcOk(t, q) {
        CopyDone(s, t, p, q);
      }
    }
  }

  lemma CloseStepInv(s: State, t: State, p: nat)
    requires Inv(s) && CloseStep(s, t, p)
    ensures Inv(t)
  {
    hide Stream, Full, Empty;
    assert ProcOk(s, p);
    SameStream(s, t);
    forall q: nat ensures ProcOk(t, q) {
      CloseStepOk(s, t, p, q);
    }
  }

  lemma CloseStepOk(s: State, t: State, p: nat, q: nat)
    requires Ends(s) && ProcOk(s, p) && ProcOk(s, q) && CloseStep(s, t, p) && (Full(t) <==> Full(s)) && (Empty(t) <==> Empty(s))
    ensures ProcOk(t, q)
  {
    hide Stream, Full, Empty;
  }

  lemma WakeStepInv(s: State, t: State, p: nat)
    requires Inv(s) && WakeStep(s, t, p)
    ensures Inv(t)
  {
    hide Stream, Full, Empty, ProcOk;
    SameStream(s, t);
    forall q: nat ensures ProcOk(t, q) {
      WakeStepOk(s, t, p, q);
    }
  }

  lemma WakeStepOk(s: State, t: State, p: nat, q: nat)
    requires Ends(s) && ProcOk(s, p) && ProcOk(s, q) && WakeStep(s, t, p) && (Full(t) <==> Full(s)) && (Empty(t) <==> Empty(s))
    ensures ProcOk(t, q)
  {
    hide Stream, Full, Empty, WakeAll;
    if q == p {
      WakerOk(s, t, p);
    } else {
      OthersOk(s, t, p, q);
    }
  }

  lemma WakerOk(s: State, t: State, p: nat)
    requires Ends(s) && ProcOk(s, p) && WakeStep(s, t, p) && (Full(t) <==> Full(s)) && (Empty(t) <==> Empty(s))
    ensures ProcOk(t, p)
  {
    hide Stream, Full, Empty, WakeAll;
    assert At(t, p).task == At(s, p).task && (At(t, p).stage.Entering? || At(t, p).stage.Leaving?);
    assert Locks(t, p) && Placed(t, p);
    assert Reads(t, p) && Returns(t, p);
    assert Sleeps(t, p);
  }

  /** A sleeper that is left was not waiting for this wakeup, and what it waits for is missing. */
  lemma OthersOk(s: State, t: State, p: nat, q: nat)
    requires ProcOk(s, p) && ProcOk(s, q) && WakeStep(s, t, p) && q != p && (Full(t) <==> Full(s)) && (Empty(t) <==> Empty(s))
    ensures ProcOk(t, q)
  {
    hide Stream, Full, Empty, WakeAll;
    assert At(t, q) == WakeOne(At(s, q), WakeChan(At(s, p).task));
    assert Locks(t, q) && Placed(t, q);
    assert Reads(t, q) && Returns(t, q);
    assert Released(t, q);
    assert Sleeps(t, q);
  }

  lemma SleepStepInv(s: State, t: State, p: nat)
    requires Inv(s) && SleepStep(s, t, p)
    ensures Inv(t)
  {
    hide Stream, Full, Empty, ProcOk;
    SameStream(s, t);
    forall q: nat ensures ProcOk(t, q) {
      SleepStepOk(s, t, p, q);
    }
  }

  lemma SleepStepOk(s: State, t: State, p: nat, q: nat)
    requires Ends(s) && ProcOk(s, p) && ProcOk(s, q) && SleepStep(s, t, p) && (Full(t) <==> Full(s)) && (Empty(t) <==> Empty(s))
    ensures ProcOk(t, q)
  {
    hide Stream, Full, Empty;
    match s.procs[p].stage
    case Entering =>
      assert Locks(t, q) && Sleeps(t, q);
    case Handoff =>
      assert Locks(t, q) && Sleeps(t, q);
    case Falling =>
      assert Locks(t, q) && Sleeps(t, q);
  }

  lemma LeaveStepInv(s: State, t: State, p: nat)
    requires Inv(s) && LeaveStep(s, t, p)
    ensures Inv(t)
  {
    hide Stream, Full, Empty, ProcOk;
    SameStream(s, t);
    if t.procs[p] != Idle {
      LastClose(s, p);
    }
    forall q: nat ensures ProcOk(t, q) {
      LeaveStepOk(s, t, p, q);
    }
  }

  lemma LeaveStepOk(s: State, t: State, p: nat, q: nat)
    requires Ends(s) && ProcOk(s, p) && ProcOk(s, q) && LeaveStep(s, t, p) && (Full(t) <==> Full(s)) && (Empty(t) <==> Empty(s))
    requires At(t, p) != Idle ==> forall r: nat :: r != p ==> At(s, r) == Idle
    ensures ProcOk(t, q)
  {
    hide Stream, Full, Empty;
    assert forall r: nat :: r != p ==> At(t, r) == At(s, r);
    assert Placed(t, q) && Reads(t, q) && Returns(t, q);
    assert Locks(t, q) && Sleeps(t, q);
  }

  /** The close that finds both ends closed is the only call left. */
  lemma LastClose(s: State, p: nat)
    requires Inv(s) && At(s, p).In? && At(s, p).task.Close? && At(s, p).stage.Leaving? && !s.readopen && !s.writeopen
    ensures forall q: nat :: q != p ==> At(s, q) == Idle
  {
    assert ProcOk(s, p);
    forall q: nat | q != p ensures At(s, q) == Idle {
      assert ProcOk(s, q);
    }
  }

  lemma StepInv(s: State, t: State)
    requires Inv(s) && Step(s, t)
    ensures Inv(t)
  {
    hide Inv;
    var p: nat :| StepOf(s, t, p);
    if task :| Begin(s, t, p, task) {
      BeginInv(s, t, p, task);
    } else if Acquire(s, t, p) {
      AcquireInv(s, t, p);
    } else if WriteStep(s, t, p) {
      WriteStepInv(s, t, p);
    } else if ReadStep(s, t, p) {
      ReadStepInv(s, t, p);
    } else if CopyStep(s, t, p) {
      CopyStepInv(s, t, p);
    } else if CloseStep(s, t, p) {
      CloseStepInv(s, t, p);
    } else if WakeStep(s, t, p) {
      WakeStepInv(s, t, p);
    } else if SleepStep(s, t, p) {
      SleepStepInv(s, t, p);
    } else {
      LeaveStepInv(s, t, p);
    }
  }

  // ----------------------------------------------------------------- who wrote and who read

  /** The bytes that process p has put into the pipe since it had taken `from` bytes. */
  function BytesBy(written: seq<Byte>, writers: seq<nat>, from: nat, p: nat): seq<Byte>
    requires |written| == |writers|
  {
    if |written| <= from then []
    else
      var last := |written| - 1;
      BytesBy(written[..last], writers[..last], from, p) + if writers[last] == p then [written[last]] else []
  }

  lemma OneMoreBy(written: seq<Byte>, writers: seq<nat>, from: nat, p: nat, b: Byte, q: nat)
    requires |written| == |writers| && from <= |written|
    ensures BytesBy(written + [b], writers + [q], from, p) == BytesBy(written, writers, from, p) + if q == p then [b] else []
  {
    assert (written + [b])[..|written|] == written && (writers + [q])[..|written|] == writers;
  }

  /** A write has put exactly the first i bytes of its buffer into the pipe, in order. */
  predicate Sends(s: State, p: nat) {
    && |s.writers| == |s.written|
    && (At(s, p).In? && At(s, p).task.Write? ==>
          && At(s, p).task.i <= |At(s, p).task.buf| && At(s, p).task.from <= |s.written|
          && BytesBy(s.written, s.writers, At(s, p).task.from, p) == At(s, p).task.buf[..At(s, p).task.i])
  }

  /** Process p puts the next byte of its buffer into the pipe. */
  ghost predicate Stores(s: State, t: State, p: nat) {
    && At(s, p).In? && At(s, p).task.Write? && At(s, p).task.i < |At(s, p).task.buf| && s.lock == Some(p)
    && t.written == s.written + [At(s, p).task.buf[At(s, p).task.i]] && t.writers == s.writers + [p]
    && At(t, p) == In(At(s, p).task.(i := At(s, p).task.i + 1), Body)
    && forall q: nat :: q != p ==> At(t, q) == At(s, q)
  }

  /** Process p takes the next byte out of the pipe. */
  predicate Takes(s: State, t: State, p: nat) {
    && At(s, p).In? && At(s, p).task.Read? && |At(s, p).task.got| < At(s, p).task.n && s.lock == Some(p)
    && |t.consumed| == |s.consumed| + 1 && s.consumed == t.consumed[..|s.consumed|]
    && At(t, p).In? && At(t, p).task == Read(At(s, p).task.n, At(s, p).task.got + t.consumed[|s.consumed|..])
  }

  /** A writer's task is the one it had, or it has just begun. */
  predicate SameTask(s: State, t: State, q: nat) {
    At(t, q).In? && At(t, q).task.Write? ==>
      (At(s, q).In? && At(t, q).task == At(s, q).task) || (At(t, q).task.i == 0 && At(t, q).task.from == |s.written|)
  }

  predicate Quiet(s: State, t: State) {
    t.written == s.written && t.writers == s.writers && t.consumed == s.consumed
  }

  lemma WriteTraffic(s: State, t: State, p: nat)
    requires ProcOk(s, p) && WriteStep(s, t, p)
    ensures Stores(s, t, p) || (t.written == s.written && t.writers == s.writers && forall q: nat :: SameTask(s, t, q))
    ensures t.consumed == s.consumed
  {
    hide Full, Empty, Used, Slot, Placed, Reads, Returns, Sleeps, Released;
  }

  lemma CopyTraffic(s: State, t: State, p: nat)
    requires ProcOk(s, p) && CopyStep(s, t, p)
    ensures Takes(s, t, p) || t.consumed == s.consumed
    ensures t.written == s.written && t.writers == s.writers && forall q: nat :: SameTask(s, t, q)
  {
    hide Full, Empty, Used, Slot, Placed, Reads, Returns, Sleeps, Released;
  }

  lemma WakeTraffic(s: State, t: State, p: nat)
    requires WakeStep(s, t, p)
    ensures Quiet(s, t) && forall q: nat :: SameTask(s, t, q)
  {
    hide WakeAll, ResultOf;
  }

  lemma BeginTraffic(s: State, t: State, p: nat, task: Task)
    requires Begin(s, t, p, task)
    ensures Quiet(s, t) && forall q: nat :: SameTask(s, t, q)
  {
    hide Uses;
    assert forall q: nat :: q != p ==> At(t, q) == At(s, q);
  }

  lemma CallTraffic(s: State, t: State, p: nat)
    requires Acquire(s, t, p) || ReadStep(s, t, p) || CloseStep(s, t, p)
    ensures Quiet(s, t) && forall q: nat :: SameTask(s, t, q)
  {
    hide Empty;
    assert forall q: nat :: q != p ==> At(t, q) == At(s, q);
  }

  lemma SleepTraffic(s: State, t: State, p: nat)
    requires SleepStep(s, t, p)
    ensures Quiet(s, t) && forall q: nat :: SameTask(s, t, q)
  {
    assert forall q: nat :: q != p ==> At(t, q) == At(s, q);
    assert At(t, p).In? && At(t, p).task == At(s, p).task;
  }

  lemma LeaveTraffic(s: State, t: State, p: nat)
    requires LeaveStep(s, t, p)
    ensures Quiet(s, t) && forall q: nat :: SameTask(s, t, q)
  {
    assert forall q: nat :: q != p ==> At(t, q) == At(s, q);
    assert At(t, p) == Idle || At(t, p).task == At(s, p).task;
  }

  lemma Traffic(s: State, t: State, p: nat)
    requires Inv(s) && StepOf(s, t, p)
    ensures Stores(s, t, p) || (t.written == s.written && t.writers == s.writers && forall q: nat :: SameTask(s, t, q))
    ensures Takes(s, t, p) || t.consumed == s.consumed
  {
    hide Stream, ProcOk, Begin, Acquire, WriteStep, ReadStep, CopyStep, CloseStep, WakeStep, SleepStep, LeaveStep, Stores, Takes, SameTask;
    assert ProcOk(s, p);
    if WriteStep(s, t, p) {
      WriteTraffic(s, t, p);
    } else if CopyStep(s, t, p) {
      CopyTraffic(s, t, p);
    } else if WakeStep(s, t, p) {
      WakeTraffic(s, t, p);
    } else if task :| Begin(s, t, p, task) {
      BeginTraffic(s, t, p, task);
    } else if SleepStep(s, t, p) {
      SleepTraffic(s, t, p);
    } else if LeaveStep(s, t, p) {
      LeaveTraffic(s, t, p);
    } else {
      CallTraffic(s, t, p);
    }
  }

  /** Bytes enter the pipe only from a write, and leave it only to a read. */
  lemma OnlyTraffic(s: State, t: State)
    requires Inv(s) && Step(s, t)
    ensures (t.written == s.written && t.writers == s.writers) || exists p: nat :: Stores(s, t, p)
    ensures t.consumed == s.consumed || exists p: nat :: Takes(s, t, p)
  {
    hide Inv, StepOf;
    var p: nat :| StepOf(s, t, p);
    Traffic(s, t, p);
  }

  lemma StepSends(s: State, t: State)
    requires Inv(s) && Step(s, t) && forall q: nat :: Sends(s, q)
    ensures forall q: nat :: Sends(t, q)
  {
    hide Inv, StepOf;
    var p: nat :| StepOf(s, t, p);
    Traffic(s, t, p);
    forall q: nat ensures Sends(t, q) {
      assert Sends(s, q) && Sends(s, p);
      if Stores(s, t, p) {
        SendsMore(s, t, p, q);
      } else {
        assert SameTask(s, t, q);
      }
    }
  }

  lemma SendsMore(s: State, t: State, p: nat, q: nat)
    requires Sends(s, p) && Sends(s, q) && Stores(s, t, p)
    ensures Sends(t, q)
  {
    if At(t, q).In? && At(t, q).task.Write? {
      var task, b := At(s, q).task, At(s, p).task.buf[At(s, p).task.i];
      OneMoreBy(s.written, s.writers, task.from, q, b, p);
      if q == p { assert task.buf[..task.i] + [b] == task.buf[..task.i + 1]; }
    }
  }

  // ----------------------------------------------------------------- the pipe is given back

  /** A pipeclose that has cleared its flag and is not done. */
  predicate Closing(s: State, p: nat) {
    At(s, p).In? && At(s, p).task.Close? && (At(s, p).stage.Waking? || At(s, p).stage.Leaving? || At(s, p).stage.Freeing?)
  }

  /** A pipe with both ends closed is free, or about to be freed. */
  ghost predicate NoLeak(s: State) {
    !s.readopen && !s.writeopen ==> s.freed || exists p: nat :: Closing(s, p)
  }

  /** An end is closed by a pipeclose only, a freed pipe stays freed, and other processes are at
      most woken. */
  predicate Minds(s: State, t: State, p: nat, q: nat) {
    && ((t.readopen == s.readopen && t.writeopen == s.writeopen) || Closing(t, p)) && (s.freed ==> t.freed)
    && (q != p ==> At(t, q) == At(s, q) || (At(s, q).In? && At(s, q).stage.Asleep? && At(t, q) == In(At(s, q).task, Woken)))
  }

  lemma BeginMinds(s: State, t: State, p: nat, task: Task, q: nat)
    requires Begin(s, t, p, task)
    ensures Minds(s, t, p, q)
  {
    hide Uses, Closing;
  }

  lemma CopyMinds(s: State, t: State, p: nat, q: nat)
    requires WriteStep(s, t, p) || CopyStep(s, t, p)
    ensures Minds(s, t, p, q)
  {
    hide Full, Empty, Used, Slot, Closing;
  }

  lemma CallMinds(s: State, t: State, p: nat, q: nat)
    requires Acquire(s, t, p) || ReadStep(s, t, p) || CloseStep(s, t, p)
    ensures Minds(s, t, p, q)
  {
    hide Empty;
  }

  lemma EndMinds(s: State, t: State, p: nat, q: nat)
    requires SleepStep(s, t, p) || LeaveStep(s, t, p) || WakeStep(s, t, p)
    ensures Minds(s, t, p, q)
  {
    hide Closing, ResultOf, WakeAll;
  }

  lemma StepMinds(s: State, t: State, p: nat, q: nat)
    requires StepOf(s, t, p)
    ensures Minds(s, t, p, q)
  {
    hide Minds, Begin, Acquire, WriteStep, ReadStep, CopyStep, CloseStep, WakeStep, SleepStep, LeaveStep;
    if task :| Begin(s, t, p, task) {
      BeginMinds(s, t, p, task, q);
    } else if WriteStep(s, t, p) || CopyStep(s, t, p) {
      CopyMinds(s, t, p, q);
    } else if SleepStep(s, t, p) || LeaveStep(s, t, p) || WakeStep(s, t, p) {
      EndMinds(s, t, p, q);
    } else {
      CallMinds(s, t, p, q);
    }
  }

  /** The closing process goes on to free the pipe. */
  lemma ClosingGoesOn(s: State, t: State, p: nat)
    requires StepOf(s, t, p) && Placed(s, p) && Closing(s, p) && !s.readopen && !s.writeopen
    ensures t.freed || Closing(t, p)
  {
    hide Full, Empty, Used, Slot, Uses, Put, Get, ResultOf, WakeAll;
    assert WakeStep(s, t, p) || LeaveStep(s, t, p);
  }

  lemma StepNoLeak(s: State, t: State)
    requires Inv(s) && NoLeak(s) && Step(s, t)
    ensures NoLeak(t)
  {
    hide StepOf, Stream, Placed, Reads, Returns, Locks, Sleeps, Released;
    var p: nat :| StepOf(s, t, p);
    assert ProcOk(s, p);
    StepMinds(s, t, p, p);
    if !s.readopen && !s.writeopen && !s.freed {
      var q: nat :| Closing(s, q);
      StepMinds(s, t, p, q);
      if q == p {
        ClosingGoesOn(s, t, p);
      } else {
        assert Closing(t, q);
      }
    }
  }

  // ----------------------------------------------------------------- no deadlock

  /** A step of a process that is in a call. */
  predicate Moves(s: State, t: State, p: nat) {
    || Acquire(s, t, p) || WriteStep(s, t, p) || ReadStep(s, t, p) || CopyStep(s, t, p) || CloseStep(s, t, p)
    || WakeStep(s, t, p) || SleepStep(s, t, p) || LeaveStep(s, t, p)
  }

  /** The holder of ptable.lock can go on. */
  lemma InSleepMoves(s: State, q: nat) returns (t: State)
    requires Inv(s) && s.ptable == Some(q)
    ensures Moves(s, t, q)
  {
    hide Stream, Full, Empty, Placed, Reads, Returns, Sleeps, Released;
    assert ProcOk(s, q);
    var task := s.procs[q].task;
    if s.procs[q].stage.Handoff? {
      t := Goto(s, q, In(task, Falling)).(lock := None);
    } else {
      t := Goto(s, q, In(task, Asleep)).(ptable := None);
    }
    assert SleepStep(s, t, q);
  }

  /** So can the holder of the pipe's lock, if ptable.lock is free. */
  lemma HolderMoves(s: State, q: nat) returns (t: State)
    requires Inv(s) && s.lock == Some(q) && s.ptable == None
    ensures Moves(s, t, q)
  {
    hide Reads, Returns, Sleeps, Released, Full, Empty, Used, Slot;
    assert ProcOk(s, q);
    var pc := s.procs[q];
    var task := pc.task;
    match pc.stage
    case Body => t := BodyMoves(s, q);
    case Copying =>
      t := if |task.got| < task.n && !Empty(s) then Goto(Get(s), q, In(Read(task.n, task.got + [s.data[Slot(s.nread)]]), Copying))
           else Goto(s, q, In(task, Waking(false)));
      assert CopyStep(s, t, q);
    case Waking(sleep) =>
      t := Goto(s.(procs := WakeAll(s.procs, WakeChan(task))), q, In(task, if sleep then Entering else Leaving(ResultOf(task))));
      assert WakeStep(s, t, q);
    case Entering =>
      t := Goto(s, q, In(task, Handoff)).(ptable := Some(q));
      assert SleepStep(s, t, q);
    case Leaving(_) =>
      var last := task.Close? && !s.readopen && !s.writeopen;
      t := Goto(s, q, if last then In(task, Freeing) else Idle).(lock := None);
      assert LeaveStep(s, t, q);
  }

  lemma BodyMoves(s: State, q: nat) returns (t: State)
    requires |s.data| == PIPESIZE && At(s, q).In? && At(s, q).stage.Body?
    ensures Moves(s, t, q)
  {
    var task := s.procs[q].task;
    match task
    case Write(buf, i, from) =>
      t := if i >= |buf| then Goto(s, q, In(task, Waking(false)))
           else if Full(s) then Goto(s, q, In(task, if s.readopen then Waking(true) else Leaving(-1)))
           else Goto(Put(s, buf[i], q), q, In(Write(buf, i + 1, from), Body));
      assert WriteStep(s, t, q);
    case Read(_, _) =>
      t := Goto(s, q, In(task, if Empty(s) && s.writeopen then Entering else Copying));
      assert ReadStep(s, t, q);
    case Close(writable) =>
      var s' := Goto(s, q, In(task, Waking(false)));
      t := if writable then s'.(writeopen := false) else s'.(readopen := false);
      assert CloseStep(s, t, q);
  }

  /** As long as some process in a call is not asleep, some process can go on. */
  lemma SomeoneMoves(s: State, p: nat) returns (q: nat, t: State)
    requires Inv(s) && At(s, p).In? && !At(s, p).stage.Asleep?
    ensures Moves(s, t, q)
  {
    hide Moves, Stream, Full, Empty, Placed, Reads, Returns, Sleeps, Released;
    if s.ptable.Some? {
      q := s.ptable.value;
      t := InSleepMoves(s, q);
    } else if s.lock.Some? {
      q := s.lock.value;
      t := HolderMoves(s, q);
    } else {
      q := p;
      t := OutsideMoves(s, p);
    }
  }

  lemma OutsideMoves(s: State, p: nat) returns (t: State)
    requires Inv(s) && At(s, p).In? && !At(s, p).stage.Asleep? && s.lock == None && s.ptable == None
    ensures Moves(s, t, p)
  {
    hide Stream, Full, Empty, Placed, Reads, Returns, Sleeps, Released;
    assert ProcOk(s, p);
    var task := s.procs[p].task;
    if s.procs[p].stage.Freeing? {
      t := Goto(s, p, Idle).(freed := true);
      assert LeaveStep(s, t, p);
    } else {
      t := Goto(s, p, In(task, Body)).(lock := Some(p));
      assert Acquire(s, t, p);
    }
  }

  // ----------------------------------------------------------------- whole runs

  ghost predicate Run(ss: seq<State>) {
    && |ss| > 0 && (exists n: nat, junk :: |junk| == PIPESIZE && ss[0] == Init(n, junk))
    && forall i :: 0 <= i < |ss| - 1 ==> Step(ss[i], ss[i + 1])
  }

  lemma {:induction false} RunInv(ss: seq<State>, i: nat)
    requires Run(ss) && i < |ss|
    ensures Inv(ss[i])
  {
    if i == 0 {
      var n: nat, junk :| |junk| == PIPESIZE && ss[0] == Init(n, junk);
      InitInv(n, junk);
    } else {
      RunInv(ss, i - 1);
      var j := i - 1;
      assert Step(ss[j], ss[j + 1]);
      StepInv(ss[j], ss[j + 1]);
    }
  }

  lemma {:induction false} RunSends(ss: seq<State>, i: nat)
    requires Run(ss) && i < |ss|
    ensures forall p: nat :: Sends(ss[i], p)
  {
    if i > 0 {
      var j := i - 1;
      RunSends(ss, j);
      RunInv(ss, j);
      assert Step(ss[j], ss[j + 1]);
      StepSends(ss[j], ss[j + 1]);
    }
  }

  /** In every state of every run some process in a call can go on, unless all of them are asleep;
      and then each waits for something that is in fact missing: a reader for a byte in a pipe that
      can still be written, a writer for room in one that can still be read. */
  lemma NoDeadlock(ss: seq<State>, i: nat)
    requires Run(ss) && i < |ss|
    ensures || (exists p: nat, t: State :: Moves(ss[i], t, p))
            || (forall p: nat :: At(ss[i], p).In? ==> At(ss[i], p).stage.Asleep? && Condition(ss[i], SleepChan(At(ss[i], p).task)))
  {
    hide Moves, Stream, Full, Empty, Placed, Reads, Returns, Released;
    RunInv(ss, i);
    var s := ss[i];
    if p: nat :| At(s, p).In? && !At(s, p).stage.Asleep? {
      var q, t := SomeoneMoves(s, p);
    } else {
      assert s.lock.Some? ==> ProcOk(s, s.lock.value);
      forall p: nat | At(s, p).In? ensures Condition(s, SleepChan(At(s, p).task)) {
        assert ProcOk(s, p);
      }
    }
  }

  lemma {:induction false} RunNoLeak(ss: seq<State>, i: nat)
    requires Run(ss) && i < |ss|
    ensures NoLeak(ss[i])
  {
    hide Step;
    if i > 0 {
      var j := i - 1;
      RunNoLeak(ss, j);
      RunInv(ss, j);
      assert Step(ss[j], ss[j + 1]);
      StepNoLeak(ss[j], ss[j + 1]);
    }
  }

  /** When both ends are closed and all calls have returned, the pipe has been freed; and it is
      freed only then. */
  lemma FreedWhenClosed(ss: seq<State>, i: nat)
    requires Run(ss) && i < |ss| && forall p: nat :: At(ss[i], p) == Idle
    ensures ss[i].freed <==> !ss[i].readopen && !ss[i].writeopen
  {
    RunNoLeak(ss, i);
    RunInv(ss, i);
    assert ProcOk(ss[i], 0);
  }

  predicate SleepsOn(s: State, p: nat, chan: Chan) {
    At(s, p).In? && At(s, p).stage.Asleep? && SleepChan(At(s, p).task) == chan
  }

  /** In every state of every run: no byte is lost, repeated or reordered; with the pipe's lock
      free a process asleep on nread means an empty pipe that can still be written, and one
      asleep on nwrite a full pipe that can still be read; so the two never sleep together. */
  lemma Safety(ss: seq<State>, i: nat, p: nat, q: nat)
    requires Run(ss) && i < |ss|
    ensures |ss[i].data| == PIPESIZE && ss[i].written == ss[i].consumed + Buffered(ss[i]) && |Buffered(ss[i])| <= PIPESIZE
    ensures ss[i].lock == None && SleepsOn(ss[i], p, NRead) ==> Empty(ss[i]) && ss[i].writeopen
    ensures ss[i].lock == None && SleepsOn(ss[i], q, NWrite) ==> Full(ss[i]) && ss[i].readopen
    ensures !(ss[i].lock == None && SleepsOn(ss[i], p, NRead) && SleepsOn(ss[i], q, NWrite))
  {
    RunInv(ss, i);
    FullEmpty(ss[i]);
    assert ProcOk(ss[i], p) && ProcOk(ss[i], q);
  }

  /** A read that returns: its bytes are the last that were taken from the stream, as many as it
      asked for or all that there were, and there are none only at end of file or when none were
      asked for.  A write that returns its length has put exactly its bytes into the pipe, in
      order; one that fails found the read end closed, and has put in a part of them. */
  lemma Results(ss: seq<State>, i: nat, p: nat)
    requires Run(ss) && i < |ss| && At(ss[i], p).In? && At(ss[i], p).stage.Leaving?
    ensures ss[i].lock == Some(p)
    ensures At(ss[i], p).task.Write? ==>
              || (At(ss[i], p).stage.result == |At(ss[i], p).task.buf| == At(ss[i], p).task.i)
              || (At(ss[i], p).stage.result == -1 && Full(ss[i]) && !ss[i].readopen)
    ensures At(ss[i], p).task.Write? ==>
              var (buf, k) := (At(ss[i], p).task.buf, At(ss[i], p).task.i);
              && |ss[i].writers| == |ss[i].written| && k <= |buf|
              && BytesBy(ss[i].written, ss[i].writers, At(ss[i], p).task.from, p) == buf[..k]
    ensures At(ss[i], p).task.Read? ==>
              var got := At(ss[i], p).task.got;
              && At(ss[i], p).stage.result == |got|
              && |got| <= At(ss[i], p).task.n && |got| <= |ss[i].consumed| && ss[i].consumed[|ss[i].consumed| - |got|..] == got
              && (|got| == At(ss[i], p).task.n || Empty(ss[i]))
              && (got == [] && At(ss[i], p).task.n > 0 ==> Empty(ss[i]) && !ss[i].writeopen)
  {
    RunInv(ss, i);
    RunSends(ss, i);
    assert ProcOk(ss[i], p) && Sends(ss[i], p);
  }

  lemma StaysFreed(s: State, t: State)
    requires Step(s, t) && s.freed
    ensures t.freed
  {
    hide StepOf, Closing;
    var p: nat :| StepOf(s, t, p);
    StepMinds(s, t, p, p);
  }

  /** Nobody uses the pipe after it was freed, and it is freed once. */
  lemma NoUseAfterFree(ss: seq<State>, i: nat, j: nat, p: nat)
    requires Run(ss) && i <= j < |ss| && ss[i].freed
    ensures ss[j].freed && At(ss[j], p) == Idle
    decreases j - i
  {
    hide Step;
    RunInv(ss, j);
    assert ProcOk(ss[j], p);
    if i < j {
      var k := j - 1;
      NoUseAfterFree(ss, i, k, p);
      assert Step(ss[k], ss[k + 1]);
      StaysFreed(ss[k], ss[k + 1]);
    }
  }

  // ----------------------------------------------------------------- the process table scan

  /** wakeup1 as the loop it is. */
  method Wakeup1(procs: array<Pc>, chan: Chan)
    modifies procs
    ensures procs[..] == WakeAll(old(procs[..]), chan)
  {
    var p := 0;
    while p < procs.Length
      invariant 0 <= p <= procs.Length
      invariant forall q :: 0 <= q < p ==> procs[q] == WakeOne(old(procs[q]), chan)
      invariant forall q :: p <= q < procs.Length ==> procs[q] == old(procs[q])
    {
      if procs[p].In? && procs[p].stage.Asleep? && SleepChan(procs[p].task) == chan {
        procs[p] := In(procs[p].task, Woken);
      }
      p := p + 1;
    }
  }
}
