/** The memory system calls on a memory that allocates every page, zeroed, when it is asked
    for: a process is its view and its size, and no call can run out of pages. */
module EagerMemory {
  import opened PageTables
  import opened UserView
  import opened MemoryNeed

  datatype Proc = Proc(view: View, sz: nat)

  type Procs = map<nat, Proc>

  /** Fault is a page fault that user code did not ask for; Load and Store are accesses of
      user code, with whatever faults they cause. */
  datatype Op =
    | Ssualloc(pid: nat, n: int)
    | Sbrk(pid: nat, n: int)
    | Fault(pid: nat, va: nat)
    | CopyOut(pid: nat, va: nat, data: seq<Byte>)
    | Load(pid: nat, va: nat)
    | Store(pid: nat, va: nat, b: Byte)
    | Fork(pid: nat, child: nat)
    | Exit(pid: nat)

  /** The argument is a C int; the process exists; a child has a pid of its own. */
  predicate Legal(pids: set<nat>, op: Op) {
    && op.pid in pids
    && (op.Ssualloc? || op.Sbrk? ==> -0x80000000 <= op.n < 0x80000000)
    && (op.Fork? ==> op.child !in pids)
  }

  /** Nothing is visible above the size, which stays below the kernel. */
  predicate Fits(p: Proc) {
    |p.view| == NUSER && p.sz < KERNBASE && forall v :: PageUp(p.sz) <= v < NUSER ==> p.view[v] == Absent
  }

  function EagerSsualloc(p: Proc, n: int): (Proc, int) {
    var base := PageUp(p.sz) * PGSIZE;
    if n <= 0 || n % PGSIZE != 0 || base + n >= KERNBASE then (p, -1)
    else (Proc(EagerGrow(p.view, PageUp(p.sz), PageUp(base + n)), base + n), base)
  }

  /** sbrk.  Shrinking to size 0 takes the pages away and reports failure with the old size;
      shrinking below 0 does nothing and reports success, unless the size is 0. */
  function EagerSbrk(p: Proc, n: int): (Proc, int) {
    if n > 0 then
      if p.sz + n >= KERNBASE then (p, -1)
      else (Proc(EagerGrow(p.view, PageUp(p.sz), PageUp(p.sz + n)), p.sz + n), p.sz)
    else if n < 0 && p.sz + n < 0 then (p, if p.sz == 0 then -1 else p.sz)
    else if n < 0 then
      var view := EagerCut(p.view, PageUp(p.sz + n), PageUp(p.sz));
      if p.sz + n == 0 then (Proc(view, p.sz), -1) else (Proc(view, p.sz + n), p.sz)
    else (p, p.sz)
  }

  function EagerLoad(p: Proc, va: nat): int {
    if UserPage(p.view, va / PGSIZE) && |p.view[va / PGSIZE].data| == PGSIZE
    then p.view[va / PGSIZE].data[va % PGSIZE] as int else -1
  }

  function EagerStoreByte(p: Proc, va: nat, b: Byte): (Proc, int) {
    if UserPage(p.view, va / PGSIZE) && p.view[va / PGSIZE].w then (p.(view := EagerStore(p.view, va, [b])), 0) else (p, -1)
  }

  function EagerCopy(p: Proc, va: nat, data: seq<Byte>): (Proc, int) {
    var (view, ok) := EagerCopyOut(p.view, va, data);
    (p.(view := view), if ok then 0 else -1)
  }

  /** What an operation does to the process that makes it. */
  function EagerCall(p: Proc, op: Op): (Proc, int) {
    match op
    case Ssualloc(_, n) => EagerSsualloc(p, n)
    case Sbrk(_, n) => EagerSbrk(p, n)
    case Fault(_, _) => (p, 0)
    case CopyOut(_, va, data) => EagerCopy(p, va, data)
    case Load(_, va) => (p, EagerLoad(p, va))
    case Store(_, va, b) => EagerStoreByte(p, va, b)
    case Fork(_, _) => (p, 0)
    case Exit(_) => (p, 0)
  }

  function EagerOp(s: Procs, op: Op): (Procs, int)
    requires Legal(s.Keys, op)
  {
    var (p, reply) := EagerCall(s[op.pid], op);
    match op
    case Fork(pid, child) => (s[child := s[pid]], reply)
    case Exit(pid) => (s - {pid}, reply)
    case _ => (s[op.pid := p], reply)
  }

  /** Operations no process can make are skipped. */
  function EagerRun(s: Procs, ops: seq<Op>): (Procs, seq<int>) {
    if ops == [] then (s, [])
    else
      var last := |ops| - 1;
      var (t, replies) := EagerRun(s, ops[..last]);
      if Legal(t.Keys, ops[last]) then
        var (t', reply) := EagerOp(t, ops[last]);
        (t', replies + [reply])
      else (t, replies + [-1])
  }

  /** The free pages with which a call of process p cannot run out of memory. */
  function Need(p: Proc, op: Op): nat {
    match op
    case Ssualloc(_, n) =>
      var base := PageUp(p.sz) * PGSIZE;
      if n <= 0 || n % PGSIZE != 0 then 0 else ReserveNeed(base, base + n)
    case Sbrk(_, n) => if n > 0 then GrowNeed(p.sz, p.sz + n) else 0
    case Fault(_, _) => 1
    case CopyOut(_, va, data) => Touches(va, |data|)
    case Load(_, _) => 1
    case Store(_, _, _) => 1
    case Fork(_, _) => KERNELPAGES + 2 * PageUp(p.sz)
    case Exit(_) => 0
  }

  /** The same for a sequence of calls. */
  function TotalNeed(s: Procs, ops: seq<Op>): nat {
    if ops == [] then 0
    else
      var last := |ops| - 1;
      var t := EagerRun(s, ops[..last]).0;
      TotalNeed(s, ops[..last]) + if Legal(t.Keys, ops[last]) then Need(t[ops[last].pid], ops[last]) else 0
  }

  lemma CopyOutAbsent(c: View, va: nat, data: seq<Byte>)
    ensures var c' := EagerCopyOut(c, va, data).0; |c'| == |c| && forall v :: 0 <= v < |c| ==> (c'[v] == Absent <==> c[v] == Absent)
  {
    var k := CopyOutMeans(c, va, data);
  }

  /** Every operation keeps everything at or above the size invisible. */
  lemma CallFits(p: Proc, op: Op)
    requires Fits(p) && Legal({op.pid}, op)
    ensures Fits(EagerCall(p, op).0)
  {
    if op.CopyOut? {
      CopyOutAbsent(p.view, op.va, op.data);
    }
  }

  /** Shrinking to nothing, when there is something, is the one sbrk that fails and yet changes
      what the process sees. */
  lemma FailedSbrk(p: Proc, n: int)
    requires Fits(p) && Legal({0}, Sbrk(0, n))
    ensures EagerSbrk(p, n).1 == -1 && EagerSbrk(p, n).0 != p <==> n < 0 && p.sz + n == 0 && p.view != NoPages()
    ensures n < 0 && p.sz + n == 0 ==> EagerSbrk(p, n) == (Proc(NoPages(), p.sz), -1)
  {
    if n < 0 && p.sz + n == 0 {
      assert EagerCut(p.view, 0, PageUp(p.sz)) == NoPages();
    }
  }
}
