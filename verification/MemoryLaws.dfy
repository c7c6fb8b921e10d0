/** What the memory calls of the eager memory mean for a program, address by address: which
    addresses it can load, what it finds there, and what a call answers. */
module MemoryLaws {
  import opened Common
  import opened PageTables
  import opened UserView
  import opened EagerMemory
  import opened MemoryNeed

  /** Every page that is there has PGSIZE bytes. */
  predicate Paged(c: View) {
    forall v :: 0 <= v < |c| && c[v].Cell? ==> |c[v].data| == PGSIZE
  }

  /** A store at va succeeds. */
  predicate Storable(p: Proc, va: nat) {
    UserPage(p.view, va / PGSIZE) && p.view[va / PGSIZE].w
  }

  lemma LoadBelow(p: Proc, va: nat)
    requires Fits(p) && EagerLoad(p, va) != -1
    ensures va / PGSIZE < PageUp(p.sz)
  {
  }

  // ----------------------------------------------------------------- ssualloc and sbrk

  /** ssualloc answers a page boundary, the first at or above the size; the n bytes from there
      on become zeros that can be stored to, nothing was there before, and nothing else changes.
      It is refused for a bad size, and if there is no such area below the kernel. */
  lemma SsuallocGives(p: Proc, n: int)
    requires Fits(p)
    ensures var (q, r) := EagerSsualloc(p, n);
            && (r == -1 ==> q == p && (n <= 0 || n % PGSIZE != 0 || p.sz + PGSIZE - 1 + n >= KERNBASE))
            && (r != -1 ==>
                  && 0 < n && n % PGSIZE == 0 && r % PGSIZE == 0 && p.sz <= r < p.sz + PGSIZE && q.sz == r + n < KERNBASE
                  && |q.view| == |p.view|
                  && forall v :: 0 <= v < NUSER ==>
                       if r <= v * PGSIZE < r + n then p.view[v] == Absent && q.view[v] == ZEROCELL else q.view[v] == p.view[v])
  {
    var (q, r) := EagerSsualloc(p, n);
    if r != -1 {
      forall v | 0 <= v < NUSER
        ensures if r <= v * PGSIZE < r + n then p.view[v] == Absent && q.view[v] == ZEROCELL else q.view[v] == p.view[v]
      {
        assert r <= v * PGSIZE < r + n <==> PageUp(p.sz) <= v < PageUp(r + n);
      }
    }
  }

  /** The first page boundary at or above the size is the only place ssualloc could use. */
  lemma SsuallocRefused(p: Proc, n: int, r: nat)
    requires Fits(p) && 0 < n && n % PGSIZE == 0 && r % PGSIZE == 0 && p.sz <= r < p.sz + PGSIZE
    ensures EagerSsualloc(p, n).1 == -1 <==> r + n >= KERNBASE
  {
    assert r == PageUp(p.sz) * PGSIZE;
  }

  lemma SsuallocBytes(p: Proc, n: int, va: nat)
    requires Fits(p) && EagerSsualloc(p, n).1 != -1
    ensures var (q, r) := EagerSsualloc(p, n);
            if r <= va < r + n then EagerLoad(p, va) == -1 && EagerLoad(q, va) == 0 && Storable(q, va)
            else EagerLoad(q, va) == EagerLoad(p, va) && (Storable(q, va) <==> Storable(p, va))
  {
    var (q, r) := EagerSsualloc(p, n);
    SsuallocGives(p, n);
    var v := va / PGSIZE;
    assert r <= va < r + n <==> r <= v * PGSIZE < r + n;
    assert r <= va < r + n ==> v < NUSER;
    assert v < NUSER ==> if r <= v * PGSIZE < r + n then p.view[v] == Absent && q.view[v] == ZEROCELL else q.view[v] == p.view[v];
  }

  /** sbrk answers the old size.  Growing adds zeroed pages from the first boundary at or above
      the size; shrinking takes away the pages from the first boundary at or above the new size.
      Below 0 nothing happens; at 0 all is taken away but the size, and the answer is -1. */
  lemma SbrkGives(p: Proc, n: int)
    requires Fits(p)
    ensures var (q, r) := EagerSbrk(p, n);
            && |q.view| == |p.view|
            && (n > 0 && p.sz + n >= KERNBASE ==> r == -1 && q == p)
            && (n > 0 && p.sz + n < KERNBASE ==>
                  && r == p.sz && q.sz == p.sz + n
                  && forall v :: 0 <= v < NUSER ==> q.view[v] == if p.sz <= v * PGSIZE < p.sz + n then ZEROCELL else p.view[v])
            && (n == 0 ==> r == p.sz && q == p)
            && (n < 0 && p.sz + n >= 0 ==>
                  && (if p.sz + n == 0 then r == -1 && q.sz == p.sz else r == p.sz && q.sz == p.sz + n)
                  && forall v :: 0 <= v < NUSER ==> q.view[v] == if p.sz + n <= v * PGSIZE then Absent else p.view[v])
            && (n < 0 && p.sz + n < 0 ==> q == p && r == if p.sz == 0 then -1 else p.sz)
  {
    var (q, r) := EagerSbrk(p, n);
    forall v | 0 <= v < NUSER
      ensures n > 0 && p.sz + n < KERNBASE ==> q.view[v] == if p.sz <= v * PGSIZE < p.sz + n then ZEROCELL else p.view[v]
      ensures n < 0 && p.sz + n >= 0 ==> q.view[v] == if p.sz + n <= v * PGSIZE then Absent else p.view[v]
    {
      assert p.sz <= v * PGSIZE <==> PageUp(p.sz) <= v;
      if p.sz + n >= 0 { assert p.sz + n <= v * PGSIZE <==> PageUp(p.sz + n) <= v; }
    }
  }

  // ----------------------------------------------------------------- loads and stores

  /** A store changes what is loaded at its address and nowhere else; it fails exactly where the
      program may not write. */
  lemma StoreGives(p: Proc, va: nat, b: Byte, x: nat)
    requires Paged(p.view)
    ensures var (q, r) := EagerStoreByte(p, va, b);
            && q.sz == p.sz && Paged(q.view) && (r == 0 || r == -1) && (r == 0 <==> Storable(p, va))
            && (r == -1 ==> q == p)
            && (r == 0 ==> EagerLoad(p, va) != -1 && EagerLoad(q, x) == if x == va then b as int else EagerLoad(p, x))
  {
  }

  /** Byte x after data was stored at va. */
  lemma StoredByte(c: View, sz: nat, va: nat, data: seq<Byte>, x: nat)
    requires Paged(c)
    ensures Paged(EagerStore(c, va, data))
    ensures EagerLoad(Proc(EagerStore(c, va, data), sz), x)
         == if EagerLoad(Proc(c, sz), x) != -1 && va <= x < va + |data| then data[x - va] as int else EagerLoad(Proc(c, sz), x)
  {
    var v := x / PGSIZE;
    assert v * PGSIZE + x % PGSIZE == x;
  }

  /** copyout stores data up to the first address that cannot be loaded, and nothing else. */
  lemma CopyGives(p: Proc, va: nat, data: seq<Byte>) returns (k: nat)
    requires Paged(p.view)
    ensures var (q, r) := EagerCopy(p, va, data);
            && k <= |data| && q.sz == p.sz && Paged(q.view) && r == (if k == |data| then 0 else -1)
            && (forall i :: va <= i < va + k ==> EagerLoad(p, i) != -1)
            && (k < |data| ==> EagerLoad(p, va + k) == -1)
            && (forall x: nat :: EagerLoad(q, x) == if va <= x < va + k then data[x - va] as int else EagerLoad(p, x))
  {
    hide EagerStore;
    k := CopyOutMeans(p.view, va, data);
    var (q, r) := EagerCopy(p, va, data);
    forall i | va <= i < va + k ensures EagerLoad(p, i) != -1 {
      assert UserPage(p.view, i / PGSIZE);
    }
    StoredByte(p.view, p.sz, va, data[..k], 0);
    forall x: nat ensures EagerLoad(q, x) == if va <= x < va + k then data[x - va] as int else EagerLoad(p, x) {
      StoredByte(p.view, p.sz, va, data[..k], x);
    }
  }

  // ----------------------------------------------------------------- several processes

  /** An operation touches the process that makes it; fork adds a copy of it, exit removes it. */
  lemma OpGives(s: Procs, op: Op, q: nat)
    requires Legal(s.Keys, op)
    ensures var t := EagerOp(s, op).0;
            && (q != op.pid && !(op.Fork? && q == op.child) ==> (q in t <==> q in s) && (q in s ==> t[q] == s[q]))
            && (op.Fork? ==> op.pid in t && op.child in t && t[op.child] == t[op.pid] == s[op.pid])
            && (op.Exit? ==> op.pid !in t)
            && (op.Fault? || op.Load? ==> t == s)
            && (!op.Fork? && !op.Exit? ==> op.pid in t && (t[op.pid], EagerOp(s, op).1) == EagerCall(s[op.pid], op))
  {
  }

  /** Running operations is running the first ones and then the others. */
  lemma {:induction false} RunInParts(s: Procs, a: seq<Op>, b: seq<Op>)
    ensures var (t, replies) := EagerRun(s, a);
            var (u, more) := EagerRun(t, b);
            EagerRun(s, a + b) == (u, replies + more) && |more| == |b|
    decreases |b|
  {
    if b == [] {
      assert a + b == a;
      assert EagerRun(s, a).1 + [] == EagerRun(s, a).1;
    } else {
      var last := |b| - 1;
      assert (a + b)[..|a + b| - 1] == a + b[..last] && (a + b)[|a + b| - 1] == b[last];
      RunInParts(s, a, b[..last]);
      var replies := EagerRun(s, a).1;
      var (t, more) := EagerRun(EagerRun(s, a).0, b[..last]);
      var reply := if Legal(t.Keys, b[last]) then EagerOp(t, b[last]).1 else -1;
      assert replies + more + [reply] == replies + (more + [reply]);
    }
  }

  lemma RunOne(s: Procs, op: Op)
    ensures EagerRun(s, [op]) == if Legal(s.Keys, op) then (EagerOp(s, op).0, [EagerOp(s, op).1]) else (s, [-1])
  {
    assert [op][..0] == [];
    assert EagerRun(s, []) == (s, []);
    assert forall r: int :: [] + [r] == [r];
  }

  /** What an operation needs: a page table for each page it reserves; a page and a page table
      for each page it adds or copies; one page for each page it touches. */
  lemma NeedAtMost(p: Proc, op: Op)
    requires Fits(p) && Legal({op.pid}, op)
    ensures op.Ssualloc? && op.n > 0 ==> Need(p, op) * PGSIZE <= op.n
    ensures op.Sbrk? && op.n > 0 ==> Need(p, op) * PGSIZE <= 2 * (op.n + PGSIZE - 1)
    ensures op.CopyOut? ==> Need(p, op) * PGSIZE <= |op.data| + 2 * (PGSIZE - 1)
    ensures op.Fork? ==> (Need(p, op) - KERNELPAGES) * PGSIZE <= 2 * (p.sz + PGSIZE - 1)
    ensures op.Fault? || op.Load? || op.Store? ==> Need(p, op) == 1
    ensures op.Exit? || (op.Sbrk? && op.n <= 0) ==> Need(p, op) == 0
  {
  }
}
