/** The memory system calls and the page-fault trap on the lazy machine.  Whatever a
    sequence of them does, a process sees the eager memory, as long as kalloc never fails. */
module LazyProcess {
  import opened Common
  import opened PageTables
  import opened UserView
  import opened EagerMemory
  import opened MemoryNeed
  import opened MemoryLaws
  import LazyVm

  type Machine = LazyVm.Machine

  ghost function ProcOf(k: Machine, pid: nat): Proc
    requires pid in k.dirs && pid in k.sz
    reads k
  {
    Proc(k.V(pid), k.sz[pid])
  }

  /** Page ownership, and nothing visible at or above the size of a process. */
  ghost predicate Sized(k: Machine)
    reads k
  {
    k.Valid() && k.sz.Keys == k.dirs.Keys && forall pid :: pid in k.dirs ==> Fits(ProcOf(k, pid))
  }

  ghost function State(k: Machine): (s: Procs)
    requires k.sz.Keys == k.dirs.Keys
    reads k
    ensures s.Keys == k.dirs.Keys && forall pid :: pid in k.dirs ==> s[pid] == ProcOf(k, pid)
  {
    map pid | pid in k.dirs :: ProcOf(k, pid)
  }

  /** The other processes are as they were. */
  twostate predicate Alone(k: Machine, pid: nat)
    requires old(k.sz.Keys == k.dirs.Keys) && k.sz.Keys == k.dirs.Keys
    reads k
  {
    k.dirs == old(k.dirs) && forall q :: q in k.dirs && q != pid ==> ProcOf(k, q) == old(ProcOf(k, q))
  }

  /** A call of process p took at most the pages it needs, and ran out only with fewer. */
  twostate predicate Affords(k: Machine, need: nat)
    reads k
  {
    Spends(|old(k.freelist)|, |k.freelist|, old(k.failures), k.failures, need)
  }

  /** uint arithmetic on a size and an int. */
  function AddSize(sz: nat, n: int): (r: nat)
    requires sz < UINT
    ensures r < UINT
  {
    (sz + n) % UINT
  }

  lemma AddSizeExact(sz: nat, n: int)
    requires sz < KERNBASE && -0x80000000 <= n < 0x80000000
    ensures AddSize(sz, n) == if sz + n < 0 then sz + n + UINT else sz + n
    ensures sz + n < 0 ==> AddSize(sz, n) >= sz
  {
  }

  /** growproc: 0 or -1. */
  method GrowProc(k: Machine, pid: nat, n: int) returns (r: int)
    requires Sized(k) && Legal(k.dirs.Keys, Sbrk(pid, n))
    modifies k
    ensures Sized(k) && k.other == old(k.other) && old(k.failures) <= k.failures && Alone(k, pid)
    ensures r == 0 || r == -1
    ensures k.failures == old(k.failures) || r == 0 ==>
              (ProcOf(k, pid), if r == 0 then old(k.sz[pid]) else -1) == EagerSbrk(old(ProcOf(k, pid)), n)
    ensures r == -1 && n > 0 ==> ProcOf(k, pid) == old(ProcOf(k, pid))
    ensures Affords(k, Need(old(ProcOf(k, pid)), Sbrk(pid, n)))
  {
    hide Good, SameBut, SameTables, Fits;
    ghost var p := ProcOf(k, pid);
    var sz := k.sz[pid];
    FitsFacts(p);
    AddSizeExact(sz, n);
    CallFits(p, Sbrk(pid, n));
    if n > 0 {
      sz := k.AllocUvm(pid, sz, AddSize(sz, n));
      if sz == 0 { return -1; }
    } else if n < 0 {
      sz := k.DeallocUvm(pid, sz, AddSize(sz, n));
      if sz == 0 { return -1; }
    }
    k.sz := k.sz[pid := sz];
    return 0;
  }

  /** What the laws of loads and stores ask for. */
  lemma SizedPaged(k: Machine, pid: nat)
    requires Sized(k) && pid in k.dirs
    ensures Fits(ProcOf(k, pid)) && Paged(k.V(pid))
  {
  }

  lemma FitsFacts(p: Proc)
    requires Fits(p)
    ensures p.sz < KERNBASE && |p.view| == NUSER && forall v :: PageUp(p.sz) <= v < NUSER ==> p.view[v] == Absent
  {
  }

  /** PGROUNDUP(sz) and what ssualloc adds to it. */
  lemma RoundUp(sz: nat, n: int)
    requires sz < KERNBASE && 0 < n < 0x80000000
    ensures var base := AddSize(sz, PGSIZE - 1) / PGSIZE * PGSIZE;
            && sz <= base <= KERNBASE && base == PageUp(sz) * PGSIZE && PageUp(base) == PageUp(sz)
            && AddSize(base, n) == base + n
  {
  }

  /** sys_ssualloc. */
  method SysSsualloc(k: Machine, pid: nat, n: int) returns (r: int)
    requires Sized(k) && Legal(k.dirs.Keys, Ssualloc(pid, n))
    modifies k
    ensures Sized(k) && k.other == old(k.other) && old(k.failures) <= k.failures && Alone(k, pid)
    ensures SameMapped(old(k.M()), k.M())
    ensures k.failures == old(k.failures) || r != -1 ==> (ProcOf(k, pid), r) == EagerSsualloc(old(ProcOf(k, pid)), n)
    ensures r == -1 ==> ProcOf(k, pid) == old(ProcOf(k, pid))
    ensures r != -1 ==> r % PGSIZE == 0 && old(k.sz[pid]) <= r < old(k.sz[pid]) + PGSIZE && k.sz[pid] == r + n
    ensures Affords(k, Need(old(ProcOf(k, pid)), Ssualloc(pid, n)))
  {
    hide Good, SameBut, SameMapped, Fits;
    SelfSame(k.M(), pid);
    ghost var p := ProcOf(k, pid);
    FitsFacts(p);
    CallFits(p, Ssualloc(pid, n));
    if n <= 0 || n % PGSIZE != 0 { return -1; }
    var oldsz := k.sz[pid];
    var base := AddSize(oldsz, PGSIZE - 1) / PGSIZE * PGSIZE;
    var newsz := AddSize(base, n);
    RoundUp(oldsz, n);
    if base < oldsz || newsz < base || newsz >= KERNBASE { return -1; }
    var got := k.ReserveSsuVm(pid, base, newsz);
    if got == 0 { return -1; }
    k.sz := k.sz[pid := newsz];
    return base;
  }

  /** The page-fault trap: a fault on a page that is not present is served if the page is
      reserved.  Whether or not it is, no view changes. */
  method PageFault(k: Machine, pid: nat, va: nat, present: bool) returns (served: bool)
    requires Sized(k) && pid in k.dirs
    modifies k
    ensures Sized(k) && k.other == old(k.other) && old(k.failures) <= k.failures
    ensures Alone(k, pid) && ProcOf(k, pid) == old(ProcOf(k, pid))
    ensures served ==> va / PGSIZE < NUSER && !PteAt(old(k.M()), pid, va / PGSIZE).p && PteAt(k.M(), pid, va / PGSIZE).p
                       && forall u :: 0 <= u < NUSER && u != va / PGSIZE ==> PteAt(k.M(), pid, u) == PteAt(old(k.M()), pid, u)
    ensures (!served ==> k.M() == old(k.M())) && (present ==> !served)
    ensures Affords(k, 1) && (served ==> k.failures == old(k.failures))
    ensures !served && !present && va / PGSIZE < NUSER && k.V(pid)[va / PGSIZE] != Absent ==>
              k.failures > old(k.failures) || PteAt(k.M(), pid, va / PGSIZE).p
  {
    hide Good, SameBut, SameTables, Fits;
    if present { return false; }
    served := k.AllocSsuPage(pid, va / PGSIZE);
  }

  /** An access of user code: the MMU's walk, the trap if the page is not present, and the
      walk again.  0 when the trap ends the process. */
  method Touch(k: Machine, pid: nat, va: nat, write: bool) returns (page: nat)
    requires Sized(k) && pid in k.dirs
    modifies k
    ensures Sized(k) && k.other == old(k.other) && old(k.failures) <= k.failures
    ensures Alone(k, pid) && ProcOf(k, pid) == old(ProcOf(k, pid))
    ensures page != 0 ==> Allows(k.V(pid), va / PGSIZE, write) && PteAt(k.M(), pid, va / PGSIZE).p
                          && page == PteAt(k.M(), pid, va / PGSIZE).page < |k.bytes|
    ensures page == 0 ==> k.failures > old(k.failures) || !Allows(k.V(pid), va / PGSIZE, write)
    ensures Affords(k, 1)
  {
    hide Good, SameBut, SameTables, Fits;
    var p, e := Mmu(k, pid, va / PGSIZE, write);
    if p != 0 || e { return p; }
    var served := PageFault(k, pid, va, false);
    if served {
      p, e := Mmu(k, pid, va / PGSIZE, write);
    }
    return p;
  }

  ghost predicate Allows(c: View, v: nat, write: bool) {
    UserPage(c, v) && (write ==> c[v].w)
  }

  /** The page, or 0 and bit 0 of the error code: whether the page was present. */
  method Mmu(k: Machine, pid: nat, v: nat, write: bool) returns (page: nat, present: bool)
    requires k.Valid() && pid in k.dirs
    ensures page != 0 ==> Allows(k.V(pid), v, write) && PteAt(k.M(), pid, v).p && page == PteAt(k.M(), pid, v).page < |k.bytes|
    ensures page == 0 && present ==> !Allows(k.V(pid), v, write)
    ensures page == 0 && v < NUSER && PteAt(k.M(), pid, v).p ==> !Allows(k.V(pid), v, write)
    ensures !present && v < NUSER ==> !PteAt(k.M(), pid, v).p
  {
    if v >= NUSER { return 0, true; }
    var table := k.Walk(pid, v / NENTRIES);
    if table == 0 { return 0, false; }
    var e := k.EntryOf(pid, v, table);
    if !e.p { return 0, false; }
    if !e.u || (write && !e.w) { return 0, true; }
    return e.page, true;
  }

  method UserLoad(k: Machine, pid: nat, va: nat) returns (r: int)
    requires Sized(k) && pid in k.dirs
    modifies k
    ensures Sized(k) && k.other == old(k.other) && old(k.failures) <= k.failures
    ensures Alone(k, pid) && ProcOf(k, pid) == old(ProcOf(k, pid))
    ensures k.failures == old(k.failures) || r != -1 ==> r == EagerLoad(ProcOf(k, pid), va)
    ensures Affords(k, 1)
  {
    var page := Touch(k, pid, va, false);
    if page == 0 { return -1; }
    assert |k.bytes[page]| == PGSIZE;
    return k.bytes[page][va % PGSIZE] as int;
  }

  method UserStore(k: Machine, pid: nat, va: nat, b: Byte) returns (r: int)
    requires Sized(k) && pid in k.dirs
    modifies k
    ensures Sized(k) && k.other == old(k.other) && old(k.failures) <= k.failures && Alone(k, pid)
    ensures k.failures == old(k.failures) || r != -1 ==> (ProcOf(k, pid), r) == EagerStoreByte(old(ProcOf(k, pid)), va, b)
    ensures r == -1 ==> ProcOf(k, pid) == old(ProcOf(k, pid))
    ensures Affords(k, 1)
  {
    hide Good, SameBut, Fits, EagerStore;
    ghost var p := ProcOf(k, pid);
    CallFits(p, Store(pid, va, b));
    var page := Touch(k, pid, va, true);
    if page == 0 { return -1; }
    k.Poke(pid, va, page, [b]);
    return 0;
  }

  method SysCopyOut(k: Machine, pid: nat, va: nat, data: seq<Byte>) returns (r: int)
    requires Sized(k) && pid in k.dirs
    modifies k
    ensures Sized(k) && k.other == old(k.other) && old(k.failures) <= k.failures && Alone(k, pid)
    ensures k.failures == old(k.failures) || r == 0 ==> (ProcOf(k, pid), r) == EagerCopy(old(ProcOf(k, pid)), va, data)
    ensures Affords(k, Touches(va, |data|))
  {
    hide Good, SameBut, Fits, EagerStore, EagerCopyOut;
    ghost var p := ProcOf(k, pid);
    var ok := k.CopyOut(pid, va, data);
    StoredFits(p, ProcOf(k, pid), va, data, ok);
    return if ok then 0 else -1;
  }

  lemma StoredFits(p: Proc, p': Proc, va: nat, data: seq<Byte>, ok: bool)
    requires Fits(p) && p'.sz == p.sz
    requires ok ==> (p'.view, ok) == EagerCopyOut(p.view, va, data)
    requires !ok ==> exists j :: 0 <= j < |data| && p'.view == EagerStore(p.view, va, data[..j])
    ensures Fits(p')
  {
    if ok {
      CopyOutAbsent(p.view, va, data);
    }
  }

  /** The memory part of fork. */
  method ForkMemory(k: Machine, pid: nat, child: nat) returns (r: int)
    requires Sized(k) && Legal(k.dirs.Keys, Fork(pid, child))
    modifies k
    ensures Sized(k) && k.other == old(k.other) && Counts(old(k.failures), k.failures, r == -1)
    ensures r == 0 ==> State(k) == old(State(k))[child := old(ProcOf(k, pid))]
    ensures r != 0 ==> r == -1 && State(k) == old(State(k)) && forall x :: x in k.freelist <==> x in old(k.freelist)
    ensures Affords(k, Need(old(ProcOf(k, pid)), Fork(pid, child)))
  {
    hide Good, Fits, SameBut, Apart, SamePresent;
    ghost var m, y, p := k.M(), k.bytes, ProcOf(k, pid);
    FitsFacts(p);
    var ok := k.CopyUvm(pid, child, k.sz[pid]);
    forall q | q in m.dirs ensures q in k.dirs && k.V(q) == ViewOf(m, y, q) {
      ApartView(m, y, k.M(), k.bytes, child, q);
    }
    if !ok { return -1; }
    ApartKeys(m, y, k.M(), k.bytes, child);
    assert Below(p.view, PageUp(p.sz)) == p.view;
    k.sz := k.sz[child := k.sz[pid]];
    assert ProcOf(k, child) == p;
    assert forall q :: q in m.dirs ==> ProcOf(k, q) == old(ProcOf(k, q));
    return 0;
  }

  lemma ApartKeys(m: Mem, y: seq<Page>, m': Mem, y': seq<Page>, pid: nat)
    requires Apart(m, y, m', y', pid) && pid in m'.dirs
    ensures m'.dirs.Keys == m.dirs.Keys + {pid}
  {
    forall q ensures q in m'.dirs.Keys <==> q in m.dirs.Keys + {pid} { }
  }

  /** freevm on the way out of a process. */
  method ExitMemory(k: Machine, pid: nat)
    requires Sized(k) && pid in k.dirs
    modifies k
    ensures Sized(k) && k.other == old(k.other) && k.failures == old(k.failures)
    ensures State(k) == old(State(k)) - {pid}
    ensures Affords(k, 0)
  {
    hide Good, Fits, SameBut;
    ghost var m, y := k.M(), k.bytes;
    k.FreeVm(pid);
    k.sz := k.sz - {pid};
    forall q | q in k.dirs ensures k.V(q) == ViewOf(m, y, q) {
      ApartView(m, y, k.M(), k.bytes, pid, q);
    }
  }

  /** One operation, or nothing if no process can make it. */
  method Do(k: Machine, op: Op) returns (r: int)
    requires Sized(k)
    modifies k
    ensures Sized(k) && k.other == old(k.other) && old(k.failures) <= k.failures
    ensures k.failures == old(k.failures) ==>
              (State(k), r) == if Legal(old(k.dirs.Keys), op) then EagerOp(old(State(k)), op) else (old(State(k)), -1)
    ensures Affords(k, if Legal(old(k.dirs.Keys), op) then Need(old(State(k))[op.pid], op) else 0)
  {
    if !(op.pid in k.dirs) || (op.Fork? && op.child in k.dirs) { return -1; }
    if (op.Ssualloc? || op.Sbrk?) && !(-0x80000000 <= op.n < 0x80000000) { return -1; }
    match op {
      case Fork(pid, child) => r := ForkMemory(k, pid, child);
      case Exit(pid) => ExitMemory(k, pid); r := 0;
      case _ => r := Call(k, op);
    }
  }

  /** An operation that concerns the process making it only. */
  method Call(k: Machine, op: Op) returns (r: int)
    requires Sized(k) && Legal(k.dirs.Keys, op) && !op.Fork? && !op.Exit?
    modifies k
    ensures Sized(k) && k.other == old(k.other) && old(k.failures) <= k.failures
    ensures k.failures == old(k.failures) ==> (State(k), r) == EagerOp(old(State(k)), op)
    ensures Affords(k, Need(old(State(k))[op.pid], op))
  {
    hide Good, Fits, EagerSbrk, EagerSsualloc, EagerCopy, EagerLoad, EagerStoreByte, SameMapped, Spends, GrowNeed, ReserveNeed, Touches, State;
    ghost var s := State(k);
    match op {
      case Ssualloc(pid, n) => r := SysSsualloc(k, pid, n);
      case Sbrk(pid, n) =>
        var addr := k.sz[pid];
        var g := GrowProc(k, pid, n);
        r := if g < 0 then -1 else addr;
      case Fault(pid, va) =>
        var served := PageFault(k, pid, va, false);
        r := 0;
      case CopyOut(pid, va, data) => r := SysCopyOut(k, pid, va, data);
      case Load(pid, va) => r := UserLoad(k, pid, va);
      case Store(pid, va, b) => r := UserStore(k, pid, va, b);
    }
    if k.failures == old(k.failures) {
      OneChanged(k, s, op.pid);
    }
  }

  /** Lazy memory refines eager memory: over any sequence of operations of any processes, as
      long as kalloc has not failed, all views, all sizes and all results are those of the
      memory that allocates zeroed pages at once.  kalloc cannot fail if there are as many free
      pages as the operations need.  Page ownership holds throughout. */
  method RunOps(k: Machine, ops: seq<Op>) returns (replies: seq<int>)
    requires Sized(k)
    modifies k
    ensures Sized(k) && k.other == old(k.other)
    ensures k.failures == old(k.failures) ==> (State(k), replies) == EagerRun(old(State(k)), ops)
    ensures |old(k.freelist)| >= TotalNeed(old(State(k)), ops) ==> k.failures == old(k.failures)
  {
    replies := [];
    ghost var s := State(k);
    assert ops[..0] == [];
    for i := 0 to |ops|
      invariant Sized(k) && k.other == old(k.other)
      invariant k.failures == old(k.failures) ==> (State(k), replies) == EagerRun(s, ops[..i]) && |k.freelist| + TotalNeed(s, ops[..i]) >= |old(k.freelist)|
      invariant old(k.failures) <= k.failures && (k.failures > old(k.failures) ==> |old(k.freelist)| < TotalNeed(s, ops[..i]))
    {
      assert ops[..i + 1][..i] == ops[..i];
      var r := Do(k, ops[i]);
      replies := replies + [r];
    }
    assert ops[..|ops|] == ops;
  }

  // ----------------------------------------------------------------- the first process

  /** The memory of the first process: one page, which starts with init. */
  function InitProc(init: seq<Byte>): Proc {
    Proc(EagerStore(EagerGrow(NoPages(), 0, 1), 0, init), PGSIZE)
  }

  /** userinit and inituvm; without the memory for them the kernel stops. */
  method UserInit(k: Machine, pid: nat, init: seq<Byte>) returns (ok: bool)
    requires Sized(k) && pid !in k.dirs && |init| < PGSIZE
    modifies k
    ensures ok ==> Sized(k) && k.other == old(k.other) && State(k) == old(State(k))[pid := InitProc(init)]
    ensures ok ==> k.failures == old(k.failures) && |k.freelist| + KERNELPAGES + 2 >= |old(k.freelist)|
    ensures !ok ==> |old(k.freelist)| < KERNELPAGES + 2
  {
    hide Good, SameBut, Fits, InitProc, Sized, State;
    ghost var s := Unsettled(k);
    ok := NewSpace(k, pid);
    if !ok { return; }
    ok := InitUvm(k, pid, init);
    if !ok { return; }
    k.sz := k.sz[pid := PGSIZE];
    InitFits(init);
    Settled(k, s, pid, InitProc(init));
  }

  lemma Unsettled(k: Machine) returns (s: Procs)
    requires Sized(k)
    ensures k.Valid() && k.sz.Keys == k.dirs.Keys && s == State(k) && s.Keys == k.dirs.Keys
    ensures forall q :: q in s ==> s[q] == ProcOf(k, q) && Fits(s[q])
  {
    s := State(k);
  }

  lemma OneChanged(k: Machine, s: Procs, pid: nat)
    requires k.sz.Keys == k.dirs.Keys && pid in k.dirs && k.dirs.Keys == s.Keys
    requires forall q :: q in s && q != pid ==> ProcOf(k, q) == s[q]
    ensures State(k) == s[pid := ProcOf(k, pid)]
  {
  }

  /** One process is new or has changed. */
  lemma Settled(k: Machine, s: Procs, pid: nat, p: Proc)
    requires k.Valid() && k.sz.Keys == k.dirs.Keys && k.dirs.Keys == s.Keys + {pid}
    requires forall q :: q in s && q != pid ==> ProcOf(k, q) == s[q] && Fits(s[q])
    requires ProcOf(k, pid) == p && Fits(p)
    ensures Sized(k) && State(k) == s[pid := p]
  {
  }

  /** setupkvm, as the other processes see it. */
  method NewSpace(k: Machine, pid: nat) returns (ok: bool)
    requires k.Valid() && pid !in k.dirs
    modifies k`freelist, k`other, k`tables, k`bytes, k`failures, k`dirs
    ensures k.Valid() && k.other == old(k.other) && Counts(old(k.failures), k.failures, !ok)
    ensures |k.freelist| + KERNELPAGES >= |old(k.freelist)| && (!ok ==> |old(k.freelist)| < KERNELPAGES)
    ensures ok ==> k.dirs.Keys == old(k.dirs).Keys + {pid} && k.V(pid) == NoPages()
    ensures ok ==> forall q :: q in old(k.dirs) ==> k.V(q) == old(k.V(q))
  {
    hide Good, SameBut, Apart, KernelSlot;
    ghost var m, y := k.M(), k.bytes;
    ok := k.SetupKvm(pid);
    if !ok { return; }
    ApartKeys(m, y, k.M(), k.bytes, pid);
    forall q | q in m.dirs ensures q in k.dirs && k.V(q) == ViewOf(m, y, q) {
      ApartView(m, y, k.M(), k.bytes, pid, q);
    }
  }

  /** inituvm: a zeroed page at address 0 gets the bytes. */
  method InitUvm(k: Machine, pid: nat, init: seq<Byte>) returns (ok: bool)
    requires k.Valid() && pid in k.dirs && k.V(pid) == NoPages() && |init| < PGSIZE
    modifies k`freelist, k`other, k`tables, k`bytes, k`failures
    ensures k.Valid() && k.other == old(k.other) && k.QuietBut(pid)
    ensures |k.freelist| + 2 >= |old(k.freelist)| && Counts(old(k.failures), k.failures, !ok) && (!ok ==> |old(k.freelist)| < 2)
    ensures ok ==> k.V(pid) == InitProc(init).view
  {
    hide Good, SameBut, EagerStore;
    ok := k.AddPage(pid, 0);
    if !ok { return; }
    assert EagerGrow(NoPages(), 0, 1) == NoPages()[0 := ZEROCELL];
    var page := k.Uva2ka(pid, 0);
    k.Poke(pid, 0, page, init);
  }

  lemma InitFits(init: seq<Byte>)
    requires |init| < PGSIZE
    ensures Fits(InitProc(init)) && InitProc(init).sz == PGSIZE
  {
  }

  /** The first process finds init at address 0, then zeros to the end of the page, all of which
      it may change, and nothing after it. */
  lemma InitBytes(init: seq<Byte>, x: nat)
    requires |init| < PGSIZE
    ensures EagerLoad(InitProc(init), x) == if x < |init| then init[x] as int else if x < PGSIZE then 0 else -1
    ensures Storable(InitProc(init), x) <==> x < PGSIZE
  {
    var c := EagerGrow(NoPages(), 0, 1);
    StoredByte(c, PGSIZE, 0, init, x);
    assert x / PGSIZE == 0 <==> x < PGSIZE;
  }

  /** A machine with n pages and its first process: where runs begin. */
  method Boot(n: nat, pid: nat, init: seq<Byte>) returns (ok: bool, k: Machine)
    requires |init| < PGSIZE
    ensures fresh(k) && (n >= KERNELPAGES + 2 ==> ok)
    ensures ok ==> Sized(k) && k.failures == 0 && State(k) == map[pid := InitProc(init)]
  {
    k := new LazyVm.Machine(n);
    ok := UserInit(k, pid, init);
  }

  // ----------------------------------------------------------------- getvp and getpp

  method GetVp(k: Machine, pid: nat) returns (n: nat)
    requires Sized(k) && pid in k.dirs
    ensures forall v :: 0 <= v < NUSER && k.V(pid)[v] != Absent ==> v < n
    ensures (n - 1) * PGSIZE < k.sz[pid] <= n * PGSIZE
  {
    FitsFacts(ProcOf(k, pid));
    n := AddSize(k.sz[pid], PGSIZE - 1) / PGSIZE * PGSIZE / PGSIZE;
  }

  method GetPp(k: Machine, pid: nat) returns (n: nat)
    requires Sized(k) && pid in k.dirs
    ensures n == Present(k.M(), pid, PageUp(k.sz[pid]))
  {
    FitsFacts(ProcOf(k, pid));
    n := k.CountPhysPages(pid, k.sz[pid]);
  }

  /** ssualloc maps nothing: the pages in use are those in use before, also counted up to the
      new size. */
  lemma {:induction false} ReservingCostsNothing(m: Mem, m': Mem, pid: nat, n: nat)
    requires SameMapped(m, m') && pid in m.dirs && n <= NUSER
    ensures Present(m', pid, n) == Present(m, pid, n)
  {
    if n > 0 {
      ReservingCostsNothing(m, m', pid, n - 1);
      var u := n - 1;
      assert PteAt(m', pid, u).p == PteAt(m, pid, u).p;
    }
  }

  /** A served fault costs exactly one page. */
  lemma {:induction false} FaultCostsOne(m: Mem, m': Mem, pid: nat, v: nat, n: nat)
    requires pid in m.dirs && pid in m'.dirs && v < NUSER && n <= NUSER
    requires !PteAt(m, pid, v).p && PteAt(m', pid, v).p
    requires forall u :: 0 <= u < NUSER && u != v ==> PteAt(m', pid, u) == PteAt(m, pid, u)
    ensures Present(m', pid, n) == Present(m, pid, n) + if v < n then 1 else 0
  {
    if n > 0 {
      FaultCostsOne(m, m', pid, v, n - 1);
      var u := n - 1;
      assert u != v ==> PteAt(m', pid, u) == PteAt(m, pid, u);
    }
  }
}
