/** vm.c, kalloc.c and the memory system calls: page tables changed entry by entry, with
    lazily allocated ssualloc pages.  Every operation is proved against the eager memory
    of UserView, and keeps every physical page in exactly one place.

    Addresses are split into user pages and offsets; a size counts bytes. */
module LazyVm {
  import opened PageTables
  import opened UserView
  import opened MemoryNeed

  /** A freed page is filled with ones: what its words then look like as entries. */
  const JUNKPTE := Pte(0x1010, true, false, false, false)

  function JunkTable(): (t: seq<Pte>)
    ensures |t| == NENTRIES
  {
    seq(NENTRIES, i => JUNKPTE)
  }

  function JunkPage(): (z: Page)
    ensures |z| == PGSIZE
  {
    seq(PGSIZE, i => 1 as Byte)
  }

  class Machine {
    /** Physical pages, as tables of entries and as bytes. */
    var tables: Tables
    var bytes: seq<Page>
    /** pgdir and sz of each process, and kmem.freelist. */
    var dirs: map<nat, nat>
    var sz: map<nat, nat>
    var freelist: seq<nat>
    /** Pages the kernel holds outside any address space. */
    ghost var other: set<nat>
    /** How often kalloc has come back empty-handed. */
    ghost var failures: nat

    ghost function M(): Mem
      reads this
    {
      Mem(tables, dirs, freelist)
    }

    ghost predicate Valid()
      reads this
    {
      Good(M(), bytes, other)
    }

    /** After kinit1 and kinit2: pages 1 to n, and nothing in use. */
    constructor (n: nat)
      ensures Valid() && dirs == map[] && sz == map[] && other == {} && failures == 0 && |freelist| == n
      ensures forall page :: page in freelist <==> 1 <= page <= n
    {
      tables, bytes := seq(n + 1, i => JunkTable()), seq(n + 1, i => JunkPage());
      dirs, sz, other, failures := map[], map[], {}, 0;
      freelist := seq(n, i requires 0 <= i < n => n - i);
      new;
      forall page | 1 <= page <= n ensures page in freelist {
        assert freelist[n - page] == page;
      }
    }

    /** What process pid sees. */
    ghost function V(pid: nat): (r: View)
      requires pid in dirs
      reads this
      ensures |r| == NUSER
    {
      ViewOf(M(), bytes, pid)
    }

    /** No process can tell that anything happened. */
    twostate predicate Quiet()
      reads this
    {
      dirs == old(dirs) && forall q :: q in dirs ==> V(q) == old(V(q))
    }

    /** Only process pid can tell. */
    twostate predicate QuietBut(pid: nat)
      reads this
    {
      dirs == old(dirs) && forall q :: q in dirs && q != pid ==> V(q) == old(V(q))
    }

    // --------------------------------------------------------------- kalloc.c

    /** Page 0 when there is none. */
    method Kalloc() returns (page: nat)
      requires Valid()
      modifies this`freelist, this`other, this`failures
      ensures Valid() && (page == 0 <==> old(freelist) == []) && Counts(old(failures), failures, page == 0)
      ensures page == 0 ==> M() == old(M()) && other == old(other)
      ensures page != 0 ==> page !in old(other) && other == old(other) + {page}
      ensures page != 0 ==> page == old(freelist)[0] && freelist == old(freelist)[1..] && 0 < page < |tables|
      ensures SamePtes(old(M()), M()) && SameTables(old(M()), M()) && Quiet()
    {
      if freelist == [] {
        failures := failures + 1;
        return 0;
      }
      page := freelist[0];
      ghost var m, other0 := M(), other;
      TakeFree(m, other);
      freelist, other := freelist[1..], other + {page};
      KeptSelf(m, bytes, other0);
      Invisible(m, bytes, other0, M(), bytes, other);
    }

    method Kfree(page: nat)
      requires Valid() && page in other
      modifies this`freelist, this`other, this`tables, this`bytes
      ensures Valid() && other == old(other) - {page} && freelist == [page] + old(freelist) && |tables| == |old(tables)|
      ensures forall x :: 0 <= x < |tables| && x != page ==> tables[x] == old(tables)[x]
      ensures SamePtes(old(M()), M()) && SameTables(old(M()), M()) && Quiet()
    {
      ghost var m, y, other0 := M(), bytes, other;
      Scratch(m, other, page, JunkTable());
      ScratchKept(m, y, other, page, JunkPage());
      tables, bytes := tables[page := JunkTable()], bytes[page := JunkPage()];
      GiveFree(M(), other, page);
      freelist, other := [page] + freelist, other - {page};
      Invisible(m, y, other0, M(), bytes, other);
    }

    /** memset(page, 0, PGSIZE) on a page just allocated. */
    method Zero(page: nat)
      requires Valid() && page in other
      modifies this`tables, this`bytes
      ensures Valid() && tables == old(tables)[page := ZeroTable()] && bytes == old(bytes)[page := ZeroPage()]
      ensures SamePtes(old(M()), M()) && SameTables(old(M()), M()) && Quiet()
    {
      ghost var m, y := M(), bytes;
      Scratch(m, other, page, ZeroTable());
      ScratchKept(m, y, other, page, ZeroPage());
      tables, bytes := tables[page := ZeroTable()], bytes[page := ZeroPage()];
      Invisible(m, y, other, M(), bytes, other);
    }

    /** kalloc followed by the memset that every caller but one makes. */
    method KallocZero() returns (page: nat)
      requires Valid()
      modifies this`freelist, this`other, this`tables, this`bytes, this`failures
      ensures Valid() && (page == 0 <==> old(freelist) == []) && Counts(old(failures), failures, page == 0)
      ensures page == 0 ==> M() == old(M()) && other == old(other) && bytes == old(bytes)
      ensures page != 0 ==> page !in old(other) && other == old(other) + {page} && page < |old(tables)| && page < |old(bytes)|
      ensures page != 0 ==> freelist == old(freelist)[1..]
      ensures page != 0 ==> tables == old(tables)[page := ZeroTable()] && bytes == old(bytes)[page := ZeroPage()]
      ensures SamePtes(old(M()), M()) && SameTables(old(M()), M()) && Quiet()
    {
      page := Kalloc();
      if page != 0 {
        Zero(page);
      }
    }

    // --------------------------------------------------------------- page tables

    /** walkpgdir(pgdir, va, 0): the page table behind directory slot d, or 0. */
    method Walk(pid: nat, d: nat) returns (table: nat)
      requires Valid() && pid in dirs && d < NENTRIES
      ensures table == TableAt(M(), pid, d) && table < |tables|
    {
      assert ValidPlace(M(), Dir(pid)) && PageAt(M(), Dir(pid)) == dirs[pid];
      assert ValidPlace(M(), Table(pid, d)) && PageAt(M(), Table(pid, d)) == TableAt(M(), pid, d);
      table := PageOf(tables[dirs[pid]][d]);
    }

    /** walkpgdir(pgdir, va, 1): a missing page table is allocated; 0 when that fails.
        No user entry and no view changes. */
    method WalkAlloc(pid: nat, d: nat) returns (table: nat)
      requires Valid() && pid in dirs && d < NENTRIES
      modifies this`freelist, this`other, this`tables, this`bytes, this`failures
      ensures Valid() && other == old(other) && Counts(old(failures), failures, table == 0)
      ensures table == TableAt(M(), pid, d) && table < |tables|
      ensures table == 0 ==> old(freelist) == [] && M() == old(M()) && bytes == old(bytes)
      ensures |freelist| + 1 >= |old(freelist)|
      ensures SamePtes(old(M()), M()) && Quiet() && SameBut(old(M()), M(), pid)
      ensures forall x :: x in other ==> x < |bytes| && bytes[x] == old(bytes)[x]
      ensures forall q, c :: q in dirs && 0 <= c < NENTRIES && !(q == pid && c == d) ==> TableAt(M(), q, c) == TableAt(old(M()), q, c)
    {
      table := Walk(pid, d);
      if table != 0 { return table; }
      var page := KallocZero();
      if page == 0 { return 0; }
      Install(pid, d, page);
      return page;
    }

    /** *pde = V2P(pgtab) | PTE_P | PTE_W | PTE_U. */
    method Install(pid: nat, d: nat, page: nat)
      requires Valid() && pid in dirs && d < NENTRIES && TableAt(M(), pid, d) == 0
      requires page in other && tables[page] == ZeroTable()
      modifies this`tables, this`other
      ensures Valid() && other == old(other) - {page} && TableOnly(old(M()), M(), pid, d, page) && Quiet()
    {
      ghost var m, other0 := M(), other;
      AddTable(m, other, pid, d, page);
      KeptSelf(m, bytes, other0);
      tables := tables[dirs[pid] := tables[dirs[pid]][d := Pte(page, true, true, true, false)]];
      other := other - {page};
      Invisible(m, bytes, other0, M(), bytes, other);
    }

    /** *pte = e: the view of page v becomes what e says, and the page e names, or the
        page the old entry named, changes hands. */
    method PutPte(pid: nat, v: nat, table: nat, e: Pte)
      requires Valid() && pid in dirs && v < NUSER && table == TableAt(M(), pid, v / NENTRIES) != 0
      requires PteAt(M(), pid, v).p ==> !e.p
      requires e.p ==> e.page in other
      modifies this`tables, this`other
      ensures Valid() && PteOnly(old(M()), M(), pid, v, e)
      ensures var was := PteAt(old(M()), pid, v);
              other == if e.p then old(other) - {e.page} else if was.p then old(other) + {was.page} else old(other)
      ensures V(pid) == old(V(pid))[v := CellOf(e, bytes)] && QuietBut(pid)
    {
      ghost var m, other0, was := M(), other, PteAt(M(), pid, v);
      StoreOk(m, other, pid, v, e);
      tables := tables[table := tables[table][v % NENTRIES := e]];
      other := if e.p then other - {e.page} else if was.p then other + {was.page} else other;
      ViewStore(m, bytes, other0, M(), other, pid, v, e);
    }

    /** mappages(pgdir, va, PGSIZE, V2P(page), flags): fails only when a page table is
        missing and there is no page for it.  The caller must not map a page twice. */
    method MapPage(pid: nat, v: nat, page: nat, flags: Pte) returns (ok: bool)
      requires Valid() && pid in dirs && v < NUSER && !PteAt(M(), pid, v).p && page in other
      modifies this`freelist, this`other, this`tables, this`bytes, this`failures
      ensures Valid() && Counts(old(failures), failures, !ok) && SameBut(old(M()), M(), pid) && QuietBut(pid)
      ensures page < |old(bytes)|
      ensures ok ==> other == old(other) - {page} && V(pid) == old(V(pid))[v := Cell(old(bytes)[page], flags.w, flags.u)]
      ensures ok ==> PteAt(M(), pid, v).p && OtherPtes(old(M()), M(), pid, v)
      ensures !ok ==> old(freelist) == [] && M() == old(M()) && bytes == old(bytes) && other == old(other)
      ensures |freelist| + 1 >= |old(freelist)|
    {
      assert page < |bytes|;
      var table := WalkAlloc(pid, v / NENTRIES);
      if table == 0 { return false; }
      PutPte(pid, v, table, flags.(page := page, p := true));
      return true;
    }

    // --------------------------------------------------------------- shrinking

    /** One round of deallocuvm on a page whose table exists. */
    method ClearPage(pid: nat, v: nat, table: nat)
      requires Valid() && pid in dirs && v < NUSER && table == TableAt(M(), pid, v / NENTRIES) != 0
      modifies this`freelist, this`other, this`tables, this`bytes
      ensures Valid() && other == old(other) && SameBut(old(M()), M(), pid) && SameTables(old(M()), M()) && QuietBut(pid)
      ensures V(pid) == old(V(pid))[v := Absent] && |freelist| >= |old(freelist)|
    {
      assert ValidPlace(M(), Table(pid, v / NENTRIES)) && PageAt(M(), Table(pid, v / NENTRIES)) == table;
      var e := tables[table][v % NENTRIES];
      assert e == PteAt(M(), pid, v);
      if e.p {
        PageReal(M(), other, pid, v);
        PutPte(pid, v, table, NONE);
        Kfree(e.page);
      } else if e.ssu {
        PutPte(pid, v, table, NONE);
      }
    }

    /** deallocuvm: pages from the first at or above newsz to the last below oldsz go away,
        whether they were present or only reserved. */
    method DeallocUvm(pid: nat, oldsz: nat, newsz: nat) returns (r: nat)
      requires Valid() && pid in dirs && oldsz <= KERNBASE
      modifies this`freelist, this`other, this`tables, this`bytes
      ensures Valid() && other == old(other) && SameBut(old(M()), M(), pid) && SameTables(old(M()), M()) && QuietBut(pid)
      ensures newsz >= oldsz ==> r == oldsz && V(pid) == old(V(pid)) && M() == old(M())
      ensures newsz < oldsz ==> r == newsz && V(pid) == EagerCut(old(V(pid)), PageUp(newsz), PageUp(oldsz))
      ensures |freelist| >= |old(freelist)|
    {
      if newsz >= oldsz { return oldsz; }
      var v := PageUp(newsz);
      ghost var lo, hi, c := v, PageUp(oldsz), V(pid);
      assert EagerCut(c, lo, lo) == c;
      while v * PGSIZE < oldsz
        invariant lo <= v && Valid() && other == old(other) && QuietBut(pid)
        invariant SameBut(old(M()), M(), pid) && SameTables(old(M()), M())
        invariant V(pid) == EagerCut(c, lo, if v < hi then v else hi) && |freelist| >= |old(freelist)|
        decreases oldsz - v * PGSIZE
      {
        assert v < hi <= NUSER;
        var table := Walk(pid, v / NENTRIES);
        if table == 0 {
          NoTable(pid, v, c, lo, hi);
          v := (v / NENTRIES + 1) * NENTRIES - 1;
        } else {
          ClearPage(pid, v, table);
          CutNext(c, lo, v);
        }
        v := v + 1;
      }
      assert v >= hi;
      return newsz;
    }

    /** A missing page table: nothing is visible up to the end of its range. */
    lemma NoTable(pid: nat, v: nat, c: View, lo: nat, hi: nat)
      requires Valid() && pid in dirs && lo <= v < hi <= NUSER && TableAt(M(), pid, v / NENTRIES) == 0
      requires V(pid) == EagerCut(c, lo, v)
      ensures var next := (v / NENTRIES + 1) * NENTRIES;
              V(pid) == EagerCut(c, lo, if next < hi then next else hi)
    {
      var next := (v / NENTRIES + 1) * NENTRIES;
      forall u | v <= u < next && u < hi ensures V(pid)[u] == Absent {
        assert u / NENTRIES == v / NENTRIES;
        assert PteAt(M(), pid, u) == NONE;
      }
    }

    // --------------------------------------------------------------- growing

    /** One round of allocuvm. */
    method AddPage(pid: nat, v: nat) returns (ok: bool)
      requires Valid() && pid in dirs && v < NUSER && V(pid)[v] == Absent
      modifies this`freelist, this`other, this`tables, this`bytes, this`failures
      ensures Valid() && other == old(other) && SameBut(old(M()), M(), pid) && QuietBut(pid)
      ensures Counts(old(failures), failures, !ok) && |freelist| + 2 >= |old(freelist)| && (!ok ==> |old(freelist)| < 2)
      ensures ok ==> V(pid) == old(V(pid))[v := ZEROCELL] && PteAt(M(), pid, v).p && OtherPtes(old(M()), M(), pid, v)
      ensures !ok ==> V(pid) == old(V(pid))
    {
      hide Good;
      var page := KallocZero();
      if page == 0 { return false; }
      ok := MapPage(pid, v, page, Pte(0, false, true, true, false));
      if !ok {
        Kfree(page);
      }
    }

    /** allocuvm: all the zeroed pages, or none.  (The source frees the page it could not map
        after undoing the others; the order cannot be seen.) */
    method AllocUvm(pid: nat, oldsz: nat, newsz: nat) returns (r: nat)
      requires Valid() && pid in dirs
      requires forall v :: PageUp(oldsz) <= v < NUSER ==> V(pid)[v] == Absent
      modifies this`freelist, this`other, this`tables, this`bytes, this`failures
      ensures Valid() && other == old(other) && SameBut(old(M()), M(), pid) && QuietBut(pid) && old(failures) <= failures
      ensures newsz >= KERNBASE ==> r == 0 && V(pid) == old(V(pid))
      ensures newsz < oldsz && newsz < KERNBASE ==> r == oldsz && V(pid) == old(V(pid))
      ensures oldsz <= newsz < KERNBASE ==>
                || (r == newsz && V(pid) == EagerGrow(old(V(pid)), PageUp(oldsz), PageUp(newsz))
                    && forall v :: PageUp(oldsz) <= v < PageUp(newsz) ==> PteAt(M(), pid, v).p)
                || (r == 0 && failures > old(failures) && V(pid) == old(V(pid)))
      ensures Spends(|old(freelist)|, |freelist|, old(failures), failures, GrowNeed(oldsz, newsz))
    {
      hide Good, SameBut;
      SelfSame(M(), pid);
      if newsz >= KERNBASE { return 0; }
      if newsz < oldsz { return oldsz; }
      var v := PageUp(oldsz);
      ghost var lo, hi, c := v, PageUp(newsz), V(pid);
      assert EagerGrow(c, lo, lo) == c;
      while v * PGSIZE < newsz
        invariant lo <= v <= hi && Valid() && other == old(other) && QuietBut(pid)
        invariant failures == old(failures) && |freelist| + 2 * (v - lo) >= |old(freelist)|
        invariant SameBut(old(M()), M(), pid) && V(pid) == EagerGrow(c, lo, v)
        invariant forall u :: lo <= u < v ==> PteAt(M(), pid, u).p
        decreases newsz - v * PGSIZE
      {
        ghost var m := M();
        var ok := AddPage(pid, v);
        SameButTrans(old(M()), m, M(), pid);
        if !ok {
          m := M();
          var _ := DeallocUvm(pid, newsz, oldsz);
          SameButTrans(old(M()), m, M(), pid);
          CutGrown(c, lo, v, hi);
          return 0;
        }
        GrowNext(c, lo, v);
        v := v + 1;
      }
      return newsz;
    }

    // --------------------------------------------------------------- lazy pages

    /** One round of reservessuvm; false when there is no page table, or something is there. */
    method ReservePage(pid: nat, v: nat) returns (ok: bool)
      requires Valid() && pid in dirs && v < NUSER
      modifies this`freelist, this`other, this`tables, this`bytes, this`failures
      ensures Valid() && other == old(other) && SameBut(old(M()), M(), pid) && QuietBut(pid) && old(failures) <= failures
      ensures SameMapped(old(M()), M())
      ensures ok ==> old(V(pid))[v] == Absent && V(pid) == old(V(pid))[v := ZEROCELL] && PteAt(M(), pid, v) == RESERVED && failures == old(failures)
      ensures !ok ==> V(pid) == old(V(pid)) && (failures > old(failures) || V(pid)[v] != Absent)
      ensures Spends(|old(freelist)|, |freelist|, old(failures), failures, 1)
      ensures forall u :: 0 <= u < NUSER && u != v ==> PteAt(M(), pid, u) == PteAt(old(M()), pid, u)
    {
      var table := WalkAlloc(pid, v / NENTRIES);
      if table == 0 { return false; }
      var e := tables[table][v % NENTRIES];
      assert e == PteAt(M(), pid, v);
      if e.p || e.ssu { return false; }
      PutPte(pid, v, table, RESERVED);
      return true;
    }

    /** One round of the rollback. */
    method UnreservePage(pid: nat, v: nat)
      requires Valid() && pid in dirs && v < NUSER && PteAt(M(), pid, v) == RESERVED
      modifies this`tables, this`other
      ensures Valid() && other == old(other) && SameBut(old(M()), M(), pid) && QuietBut(pid)
      ensures SameMapped(old(M()), M()) && V(pid) == old(V(pid))[v := Absent]
      ensures forall u :: 0 <= u < NUSER && u != v ==> PteAt(M(), pid, u) == PteAt(old(M()), pid, u)
    {
      var table := Walk(pid, v / NENTRIES);
      if table != 0 {
        var e := tables[table][v % NENTRIES];
        if e.ssu && !e.p {
          PutPte(pid, v, table, NONE);
        }
      }
    }

    /** reservessuvm: zeroed pages appear although no page is taken for them; on failure
        nothing changes in any address space.  No virtual page changes its physical page. */
    method ReserveSsuVm(pid: nat, oldsz: nat, newsz: nat) returns (r: nat)
      requires Valid() && pid in dirs
      modifies this`freelist, this`other, this`tables, this`bytes, this`failures
      ensures Valid() && other == old(other) && SameBut(old(M()), M(), pid) && QuietBut(pid) && old(failures) <= failures
      ensures SameMapped(old(M()), M())
      ensures newsz >= KERNBASE || newsz < oldsz ==> r == 0 && V(pid) == old(V(pid))
      ensures oldsz <= newsz < KERNBASE ==>
                || (r == newsz && V(pid) == EagerGrow(old(V(pid)), PageUp(oldsz), PageUp(newsz))
                    && forall v :: PageUp(oldsz) <= v < PageUp(newsz) ==> old(V(pid))[v] == Absent)
                || (r == 0 && V(pid) == old(V(pid))
                    && (failures > old(failures) || exists v :: PageUp(oldsz) <= v < PageUp(newsz) && old(V(pid))[v] != Absent))
      ensures Spends(|old(freelist)|, |freelist|, old(failures), failures, ReserveNeed(oldsz, newsz))
    {
      hide Good, SameMapped, SameBut;
      SelfSame(M(), pid);
      if newsz >= KERNBASE || newsz < oldsz { return 0; }
      var start := PageUp(oldsz);
      var v := start;
      ghost var hi, c := PageUp(newsz), V(pid);
      assert EagerGrow(c, start, start) == c;
      while v * PGSIZE < newsz
        invariant start <= v <= hi && Valid() && other == old(other) && QuietBut(pid)
        invariant failures == old(failures) && |freelist| + (v - start) >= |old(freelist)|
        invariant SameBut(old(M()), M(), pid) && SameMapped(old(M()), M())
        invariant V(pid) == EagerGrow(c, start, v)
        invariant forall u :: start <= u < v ==> c[u] == Absent && PteAt(M(), pid, u) == RESERVED
        decreases newsz - v * PGSIZE
      {
        ghost var m := M();
        var ok := ReservePage(pid, v);
        StillSame(old(M()), m, M(), pid);
        if !ok {
          assert V(pid)[v] == c[v];
          m := M();
          Rollback(pid, start, v, c);
          StillSame(old(M()), m, M(), pid);
          return 0;
        }
        GrowNext(c, start, v);
        v := v + 1;
      }
      return newsz;
    }

    /** The loop at `bad:`. */
    method Rollback(pid: nat, start: nat, at: nat, ghost c: View)
      requires Valid() && pid in dirs && start <= at < NUSER && |c| == NUSER
      requires V(pid) == EagerGrow(c, start, at)
      requires forall u :: start <= u < at ==> c[u] == Absent && PteAt(M(), pid, u) == RESERVED
      modifies this`tables, this`other
      ensures Valid() && other == old(other) && SameBut(old(M()), M(), pid) && QuietBut(pid)
      ensures SameMapped(old(M()), M()) && V(pid) == c
    {
      var v := at;
      while v > start
        invariant start <= v <= at && Valid() && other == old(other) && QuietBut(pid)
        invariant SameBut(old(M()), M(), pid) && SameMapped(old(M()), M())
        invariant V(pid) == EagerGrow(c, start, v)
        invariant forall u :: start <= u < v ==> PteAt(M(), pid, u) == RESERVED
      {
        v := v - 1;
        UnreservePage(pid, v);
        assert V(pid) == EagerGrow(c, start, v);
      }
    }

    /** allocssupage on the page that holds the faulting address: exactly a reserved page gets
        memory, and nobody sees the difference. */
    method AllocSsuPage(pid: nat, v: nat) returns (ok: bool)
      requires Valid() && pid in dirs
      modifies this`freelist, this`other, this`tables, this`bytes, this`failures
      ensures Valid() && other == old(other) && SameBut(old(M()), M(), pid) && Quiet() && old(failures) <= failures
      ensures SameTables(old(M()), M())
      ensures ok <==> v < NUSER && !PteAt(old(M()), pid, v).p && PteAt(old(M()), pid, v).ssu && old(freelist) != []
      ensures !ok ==> M() == old(M())
      ensures !ok && v < NUSER && !PteAt(old(M()), pid, v).p && PteAt(old(M()), pid, v).ssu ==> failures > old(failures)
      ensures Spends(|old(freelist)|, |freelist|, old(failures), failures, 1) && (ok ==> failures == old(failures))
      ensures ok ==> PteAt(M(), pid, v).p && PteAt(M(), pid, v).u
                     && forall u :: 0 <= u < NUSER && u != v ==> PteAt(M(), pid, u) == PteAt(old(M()), pid, u)
    {
      if v >= NUSER { return false; }
      var table := Walk(pid, v / NENTRIES);
      if table == 0 { return false; }
      var e := tables[table][v % NENTRIES];
      assert e == PteAt(M(), pid, v);
      if e.p || !e.ssu { return false; }
      ok := Materialise(pid, v, table);
    }

    /** A zeroed page behind a reserved entry. */
    method Materialise(pid: nat, v: nat, table: nat) returns (ok: bool)
      requires Valid() && pid in dirs && v < NUSER && table == TableAt(M(), pid, v / NENTRIES) != 0
      requires !PteAt(M(), pid, v).p && PteAt(M(), pid, v).ssu
      modifies this`freelist, this`other, this`tables, this`bytes, this`failures
      ensures Valid() && other == old(other) && SameBut(old(M()), M(), pid) && SameTables(old(M()), M()) && Quiet()
      ensures ok == (old(freelist) != []) && Counts(old(failures), failures, !ok) && (!ok ==> M() == old(M()))
      ensures |freelist| + 1 >= |old(freelist)|
      ensures ok ==> PteAt(M(), pid, v).p && PteAt(M(), pid, v).u
                     && forall u :: 0 <= u < NUSER && u != v ==> PteAt(M(), pid, u) == PteAt(old(M()), pid, u)
    {
      var page := KallocZero();
      if page == 0 { return false; }
      PutPte(pid, v, table, Pte(page, true, true, true, false));
      assert V(pid) == old(V(pid));
      return true;
    }

    // --------------------------------------------------------------- copyout

    /** uva2ka: the page behind a user page that is present.  Entries above KERNBASE never
        have PTE_U. */
    method Uva2ka(pid: nat, v: nat) returns (page: nat)
      requires Valid() && pid in dirs
      ensures page != 0 <==> v < NUSER && PteAt(M(), pid, v).p && PteAt(M(), pid, v).u
      ensures page != 0 ==> page == PteAt(M(), pid, v).page < |bytes|
    {
      if v >= NUSER { return 0; }
      var table := Walk(pid, v / NENTRIES);
      if table == 0 { return 0; }
      var e := tables[table][v % NENTRIES];
      assert e == PteAt(M(), pid, v);
      if !e.p || !e.u { return 0; }
      PageReal(M(), other, pid, v);
      return e.page;
    }

    /** The first half of a round of copyout: the page to copy to, materialised if it was only
        reserved. */
    method CopyTarget(pid: nat, v: nat) returns (page: nat)
      requires Valid() && pid in dirs
      modifies this`freelist, this`other, this`tables, this`bytes, this`failures
      ensures Valid() && other == old(other) && SameBut(old(M()), M(), pid) && Quiet() && old(failures) <= failures
      ensures page != 0 ==> UserPage(V(pid), v) && PteAt(M(), pid, v).p && page == PteAt(M(), pid, v).page < |bytes|
      ensures page == 0 ==> failures > old(failures) || !UserPage(V(pid), v)
      ensures Spends(|old(freelist)|, |freelist|, old(failures), failures, 1) && (page != 0 ==> failures == old(failures))
    {
      page := Uva2ka(pid, v);
      if page == 0 {
        var ok := AllocSsuPage(pid, v);
        if ok {
          page := Uva2ka(pid, v);
        }
      }
    }

    /** memmove into the page behind v. */
    method Poke(pid: nat, va: nat, page: nat, data: seq<Byte>)
      requires Valid() && pid in dirs && va / PGSIZE < NUSER && va % PGSIZE + |data| <= PGSIZE
      requires PteAt(M(), pid, va / PGSIZE).p && page == PteAt(M(), pid, va / PGSIZE).page < |bytes|
      modifies this`bytes
      ensures Valid() && V(pid) == EagerStore(old(V(pid)), va, data) && QuietBut(pid)
    {
      var v := va / PGSIZE;
      StorePage(V(pid), va, data);
      ViewWrite(M(), bytes, other, pid, v, PatchPage(bytes[page], v * PGSIZE, va, data));
      bytes := bytes[page := PatchPage(bytes[page], v * PGSIZE, va, data)];
    }

    /** One round of copyout; 0 when it cannot go on. */
    method CopyStep(pid: nat, va: nat, buf: seq<Byte>) returns (n: nat)
      requires Valid() && pid in dirs && buf != []
      modifies this`freelist, this`other, this`tables, this`bytes, this`failures
      ensures Valid() && other == old(other) && SameBut(old(M()), M(), pid) && QuietBut(pid) && old(failures) <= failures
      ensures n == 0 ==> V(pid) == old(V(pid)) && (failures > old(failures) || !UserPage(V(pid), va / PGSIZE))
      ensures n != 0 ==> n == Chunk(va, |buf|) && UserPage(old(V(pid)), va / PGSIZE) && V(pid) == EagerStore(old(V(pid)), va, buf[..n])
      ensures Spends(|old(freelist)|, |freelist|, old(failures), failures, 1) && (n != 0 ==> failures == old(failures))
    {
      var page := CopyTarget(pid, va / PGSIZE);
      if page == 0 { return 0; }
      n := Chunk(va, |buf|);
      Poke(pid, va, page, buf[..n]);
    }

    /** copyout: what it would do to an eager memory, unless pages run out, and then it has
        stored a prefix. */
    method CopyOut(pid: nat, va: nat, data: seq<Byte>) returns (ok: bool)
      requires Valid() && pid in dirs
      modifies this`freelist, this`other, this`tables, this`bytes, this`failures
      ensures Valid() && other == old(other) && SameBut(old(M()), M(), pid) && QuietBut(pid) && old(failures) <= failures
      ensures failures == old(failures) || ok ==> (V(pid), ok) == EagerCopyOut(old(V(pid)), va, data)
      ensures !ok ==> exists k :: 0 <= k < |data| && V(pid) == EagerStore(old(V(pid)), va, data[..k])
      ensures Spends(|old(freelist)|, |freelist|, old(failures), failures, Touches(va, |data|))
    {
      hide EagerStore, EagerCopyOut, Good, SameBut, Touches, UserPage, Chunk;
      SelfSame(M(), pid);
      TouchesNone(va);
      var at, buf := va, data;
      ghost var c: View, done: nat := V(pid), 0;
      StoreNothing(c, va);
      assert data[..0] == [];
      while buf != []
        invariant Valid() && other == old(other) && SameBut(old(M()), M(), pid) && QuietBut(pid)
        invariant done <= |data| && at == va + done && buf == data[done..]
        invariant failures == old(failures) && |freelist| + Touches(va, done) >= |old(freelist)|
        invariant done == 0 || buf == [] || at % PGSIZE == 0
        invariant EagerCopyOut(c, va, data) == EagerCopyOut(V(pid), at, buf)
        invariant V(pid) == EagerStore(c, va, data[..done])
        decreases |buf|
      {
        ghost var before, m := V(pid), M();
        var n := CopyStep(pid, at, buf);
        SameButTrans(old(M()), m, M(), pid);
        if n == 0 {
          if failures == old(failures) { CopyOutStop(V(pid), at, buf); }
          TouchesMore(va, done, 1, |data|);
          return false;
        }
        CopyPrefix(c, va, data, done, before, n);
        TouchesMore(va, done, n, |data|);
        assert V(pid) == EagerStore(c, va, data[..done + n]);
        done := done + n;
        at, buf := at + n, buf[n..];
      }
      CopyOutStop(V(pid), at, buf);
      assert data[..done] == data;
      return true;
    }

    // --------------------------------------------------------------- counting

    /** countphyspages. */
    method CountPhysPages(pid: nat, size: nat) returns (count: nat)
      requires Valid() && pid in dirs && size < KERNBASE
      ensures count == Present(M(), pid, PageUp(size))
    {
      var v := 0;
      count := 0;
      while v * PGSIZE < size
        invariant 0 <= v <= PageUp(size) && count == Present(M(), pid, v)
        decreases size - v * PGSIZE
      {
        var table := Walk(pid, v / NENTRIES);
        if table != 0 && tables[table][v % NENTRIES].p {
          count := count + 1;
        }
        v := v + 1;
      }
    }

    // --------------------------------------------------------------- whole address spaces

    /** setupkvm: a directory with a page table for each kernel slot, and nothing visible. */
    method SetupKvm(pid: nat) returns (ok: bool)
      requires Valid() && pid !in dirs
      modifies this`freelist, this`other, this`tables, this`bytes, this`failures, this`dirs
      ensures Valid() && other == old(other) && Apart(old(M()), old(bytes), M(), bytes, pid)
      ensures Counts(old(failures), failures, !ok) && Spends(|old(freelist)|, |freelist|, old(failures), failures, KERNELPAGES)
      ensures ok ==> pid in dirs && V(pid) == NoPages()
      ensures ok ==> forall d :: 0 <= d < NENTRIES && KernelSlot(d) ==> TableAt(M(), pid, d) != 0
      ensures !ok ==> pid !in dirs
    {
      hide Apart, Good;
      var page := KallocZero();
      ApartSame(old(M()), old(bytes), M(), bytes, pid);
      if page == 0 { return false; }
      ghost var m1, y1 := M(), bytes;
      NewDir(pid, page);
      ApartTrans(old(M()), old(bytes), m1, y1, M(), bytes, pid);
      ghost var m2, y2 := M(), bytes;
      ok := KernelTables(pid);
      ApartSame(m2, y2, M(), bytes, pid);
      ApartTrans(old(M()), old(bytes), m2, y2, M(), bytes, pid);
      if !ok {
        ghost var m3, y3 := M(), bytes;
        FreeVm(pid);
        ApartTrans(old(M()), old(bytes), m3, y3, M(), bytes, pid);
      }
    }

    method KernelTables(pid: nat) returns (ok: bool)
      requires Valid() && pid in dirs
      modifies this`freelist, this`other, this`tables, this`bytes, this`failures
      ensures Valid() && other == old(other) && SameBut(old(M()), M(), pid) && Quiet()
      ensures Counts(old(failures), failures, !ok) && |freelist| + Slots(NENTRIES) >= |old(freelist)| && (!ok ==> |old(freelist)| < Slots(NENTRIES))
      ensures ok ==> forall d :: 0 <= d < NENTRIES && KernelSlot(d) ==> TableAt(M(), pid, d) != 0
    {
      hide Good;
      var d := NUSERDIR;
      while d < NENTRIES
        invariant NUSERDIR <= d <= NENTRIES && Valid() && other == old(other) && failures == old(failures)
        invariant |freelist| + Slots(d) >= |old(freelist)|
        invariant SameBut(old(M()), M(), pid) && Quiet()
        invariant forall c :: 0 <= c < d && KernelSlot(c) ==> TableAt(M(), pid, c) != 0
      {
        if KernelSlot(d) {
          var table := WalkAlloc(pid, d);
          if table == 0 { return false; }
        }
        d := d + 1;
      }
      return true;
    }

    method NewDir(pid: nat, page: nat)
      requires Valid() && pid !in dirs && page in other && tables[page] == ZeroTable()
      modifies this`dirs, this`other
      ensures Valid() && dirs == old(dirs)[pid := page] && other == old(other) - {page}
      ensures Apart(old(M()), bytes, M(), bytes, pid) && V(pid) == NoPages()
    {
      NewDirViews(M(), bytes, other, pid, page);
      dirs, other := dirs[pid := page], other - {page};
    }

    /** The loop of freevm over the directory page, which nobody owns any more. */
    method FreeTables(dir: nat, ghost t: seq<Pte>)
      requires Valid() && dir in other && tables[dir] == t && |t| == NENTRIES
      requires forall d :: 0 <= d < NENTRIES && PageOf(t[d]) != 0 ==> PageOf(t[d]) in other && PageOf(t[d]) != dir
      requires forall c, d :: 0 <= c < d < NENTRIES && PageOf(t[c]) != 0 ==> PageOf(t[c]) != PageOf(t[d])
      modifies this`freelist, this`other, this`tables, this`bytes
      ensures Valid() && other == old(other) - PagesIn(t, NENTRIES) && |freelist| >= |old(freelist)|
      ensures SamePtes(old(M()), M()) && SameTables(old(M()), M()) && Quiet()
    {
      assert dir < |tables|;
      var i := 0;
      while i < NENTRIES
        invariant 0 <= i <= NENTRIES && Valid() && |tables| == |old(tables)| && dir < |tables| && tables[dir] == t
        invariant other == old(other) - PagesIn(t, i) && |freelist| >= |old(freelist)|
        invariant SamePtes(old(M()), M()) && SameTables(old(M()), M()) && Quiet()
      {
        var e := tables[dir][i];
        if e.p && e.page != 0 {
          Kfree(e.page);
        }
        assert PagesIn(t, i + 1) == if PageOf(e) != 0 then PagesIn(t, i) + {e.page} else PagesIn(t, i);
        i := i + 1;
      }
    }

    /** freevm: the address space is gone and all its pages are free. */
    method FreeVm(pid: nat)
      requires Valid() && pid in dirs
      modifies this`freelist, this`other, this`tables, this`bytes, this`dirs
      ensures Valid() && other == old(other) && Apart(old(M()), old(bytes), M(), bytes, pid)
      ensures dirs == old(dirs) - {pid} && |freelist| >= |old(freelist)|
    {
      hide Apart, Good;
      var _ := DeallocUvm(pid, KERNBASE, 0);
      ApartSame(old(M()), old(bytes), M(), bytes, pid);
      ghost var m, y := M(), bytes;
      assert V(pid) == NoPages();
      DropTables(pid);
      ApartTrans(old(M()), old(bytes), m, y, M(), bytes, pid);
    }

    /** freevm after deallocuvm. */
    method DropTables(pid: nat)
      requires Valid() && pid in dirs && V(pid) == NoPages()
      modifies this`freelist, this`other, this`tables, this`bytes, this`dirs
      ensures Valid() && other == old(other) && Apart(old(M()), old(bytes), M(), bytes, pid)
      ensures dirs == old(dirs) - {pid} && |freelist| >= |old(freelist)|
    {
      hide Apart;
      ghost var m, y, kept := M(), bytes, other;
      var dir := dirs[pid];
      Detach(pid);
      ghost var t := tables[dir];
      ghost var m1 := M();
      FreeTables(dir, t);
      Kfree(dir);
      assert other == kept;
      ApartSame(m1, y, M(), bytes, pid);
      ApartTrans(m, y, m1, y, M(), bytes, pid);
    }

    /** The directory and the page tables of pid are no longer anyone's address space. */
    method Detach(pid: nat)
      requires Valid() && pid in dirs && V(pid) == NoPages()
      modifies this`other, this`dirs
      ensures Valid() && dirs == old(dirs) - {pid} && Apart(old(M()), bytes, M(), bytes, pid)
      ensures old(dirs)[pid] < |tables| && |tables[old(dirs)[pid]]| == NENTRIES
      ensures var dir, t := old(dirs)[pid], tables[old(dirs)[pid]];
              && dir !in old(other) && dir !in PagesIn(t, NENTRIES) && PagesIn(t, NENTRIES) !! old(other)
              && other == old(other) + {dir} + PagesIn(t, NENTRIES)
              && (forall c, d :: 0 <= c < d < NENTRIES && PageOf(t[c]) != 0 ==> PageOf(t[c]) != PageOf(t[d]))
    {
      DropDirViews(M(), bytes, other, pid);
      other := other + {dirs[pid]} + PagesIn(tables[dirs[pid]], NENTRIES);
      dirs := dirs - {pid};
    }

    /** memmove(mem, P2V(pa), PGSIZE) into a page just allocated. */
    method CopyPage(page: nat, from: nat)
      requires Valid() && page in other && from < |bytes|
      modifies this`bytes
      ensures Valid() && page < |bytes| && bytes == old(bytes)[page := old(bytes)[from]] && Quiet()
    {
      ghost var m, y := M(), bytes;
      ScratchKept(m, y, other, page, bytes[from]);
      bytes := bytes[page := bytes[from]];
      Invisible(m, y, other, M(), bytes, other);
    }

    method KallocCopy(from: nat) returns (page: nat)
      requires Valid() && from < |bytes|
      modifies this`freelist, this`other, this`bytes, this`failures
      ensures Valid() && Counts(old(failures), failures, page == 0)
      ensures page == 0 ==> other == old(other) && old(freelist) == []
      ensures |freelist| + 1 >= |old(freelist)|
      ensures page != 0 ==> page !in old(other) && other == old(other) + {page} && page < |bytes| && bytes[page] == old(bytes)[from]
      ensures SamePtes(old(M()), M()) && SameTables(old(M()), M()) && Quiet()
    {
      page := Kalloc();
      if page != 0 {
        CopyPage(page, from);
      }
    }

    /** One round of copyuvm. */
    method CopyOne(parent: nat, child: nat, v: nat) returns (ok: bool)
      requires Valid() && parent in dirs && child in dirs && parent != child && v < NUSER && V(child)[v] == Absent
      modifies this`freelist, this`other, this`tables, this`bytes, this`failures
      ensures Valid() && other == old(other) && SameBut(old(M()), M(), child) && QuietBut(child)
      ensures Counts(old(failures), failures, !ok) && |freelist| + 2 >= |old(freelist)| && (!ok ==> |old(freelist)| < 2)
      ensures ok ==> V(child) == old(V(child))[v := V(parent)[v]]
      ensures ok ==> PteAt(M(), child, v).p == PteAt(old(M()), parent, v).p && OtherPtes(old(M()), M(), child, v)
    {
      hide Good;
      var table := Walk(parent, v / NENTRIES);
      if table == 0 { return true; }
      var e := EntryOf(parent, v, table);
      if !e.p {
        if !e.ssu { return true; }
        var mine := WalkAlloc(child, v / NENTRIES);
        if mine == 0 { return false; }
        PutPte(child, v, mine, RESERVED);
        return true;
      }
      ok := CopyPresent(parent, child, v, e);
    }

    method EntryOf(pid: nat, v: nat, table: nat) returns (e: Pte)
      requires Valid() && pid in dirs && v < NUSER && table == TableAt(M(), pid, v / NENTRIES) != 0
      ensures e == PteAt(M(), pid, v) && (e.p ==> 0 < e.page < |bytes| && e.page !in other)
    {
      assert ValidPlace(M(), Table(pid, v / NENTRIES)) && PageAt(M(), Table(pid, v / NENTRIES)) == table;
      e := tables[table][v % NENTRIES];
      if e.p { PageReal(M(), other, pid, v); }
    }

    method CopyPresent(parent: nat, child: nat, v: nat, e: Pte) returns (ok: bool)
      requires Valid() && parent in dirs && child in dirs && parent != child && v < NUSER && V(child)[v] == Absent
      requires e == PteAt(M(), parent, v) && e.p && e.page < |bytes|
      modifies this`freelist, this`other, this`tables, this`bytes, this`failures
      ensures Valid() && other == old(other) && SameBut(old(M()), M(), child) && QuietBut(child)
      ensures Counts(old(failures), failures, !ok) && |freelist| + 2 >= |old(freelist)| && (!ok ==> |old(freelist)| < 2)
      ensures ok ==> V(child) == old(V(child))[v := V(parent)[v]]
      ensures ok ==> PteAt(M(), child, v).p == PteAt(old(M()), parent, v).p && OtherPtes(old(M()), M(), child, v)
    {
      hide Good, SameTables;
      ghost var cell := V(parent)[v];
      assert cell == Cell(bytes[e.page], e.w, e.u);
      var page := KallocCopy(e.page);
      if page == 0 { return false; }
      assert V(child)[v] == Absent;
      ok := MapPage(child, v, page, e);
      if !ok {
        Kfree(page);
      }
    }

    /** copyuvm: the child sees the parent's pages below size; or the child does not exist and
        exactly the pages that were free are free. */
    method CopyUvm(parent: nat, child: nat, size: nat) returns (ok: bool)
      requires Valid() && parent in dirs && child !in dirs && size <= KERNBASE
      modifies this`freelist, this`other, this`tables, this`bytes, this`failures, this`dirs
      ensures Valid() && other == old(other) && Apart(old(M()), old(bytes), M(), bytes, child)
      ensures Counts(old(failures), failures, !ok) && Spends(|old(freelist)|, |freelist|, old(failures), failures, KERNELPAGES + 2 * PageUp(size))
      ensures ok ==> child in dirs && V(child) == Below(old(V(parent)), PageUp(size))
      ensures ok ==> SamePresent(old(M()), parent, M(), child, PageUp(size))
      ensures !ok ==> dirs == old(dirs) && forall x :: x in freelist <==> x in old(freelist)
    {
      hide Apart, Good;
      ghost var m, y := M(), bytes;
      ok := SetupKvm(child);
      if ok {
        ghost var m1, y1 := M(), bytes;
        ApartView(m, y, m1, y1, child, parent);
        ok := CopyPages(parent, child, size);
        if ok { PresentVia(m, y, m1, y1, M(), parent, child, PageUp(size)); }
        ApartSame(m1, y1, M(), bytes, child);
        ApartTrans(m, y, m1, y1, M(), bytes, child);
        if !ok {
          ghost var m2, y2 := M(), bytes;
          FreeVm(child);
          ApartTrans(m, y, m2, y2, M(), bytes, child);
        }
      }
      if !ok {
        Returned(m, y, M(), bytes, other, child);
      }
    }

    method CopyPages(parent: nat, child: nat, size: nat) returns (ok: bool)
      requires Valid() && parent in dirs && child in dirs && parent != child && size <= KERNBASE && V(child) == NoPages()
      modifies this`freelist, this`other, this`tables, this`bytes, this`failures
      ensures Valid() && other == old(other) && SameBut(old(M()), M(), child) && QuietBut(child)
      ensures Counts(old(failures), failures, !ok) && Spends(|old(freelist)|, |freelist|, old(failures), failures, 2 * PageUp(size))
      ensures ok ==> V(child) == Below(old(V(parent)), PageUp(size))
      ensures ok ==> SamePresent(old(M()), parent, M(), child, PageUp(size))
    {
      hide Good, SameBut, SamePresent, OtherPtes;
      SelfSame(M(), child);
      NonePresent(M(), parent, child);
      var v := 0;
      ghost var c := V(parent);
      assert Below(c, 0) == NoPages();
      while v * PGSIZE < size
        invariant 0 <= v <= PageUp(size) && Valid() && other == old(other) && SameBut(old(M()), M(), child) && QuietBut(child)
        invariant |freelist| + 2 * v >= |old(freelist)|
        invariant failures == old(failures) && V(child) == Below(c, v) && SamePresent(old(M()), parent, M(), child, v)
        decreases size - v * PGSIZE
      {
        assert V(parent) == c;
        ghost var m := M();
        SamePtesOf(old(M()), m, child, parent);
        ok := CopyOne(parent, child, v);
        SameButTrans(old(M()), m, M(), child);
        if !ok { return false; }
        PresentNext(old(M()), parent, m, M(), child, v);
        assert Below(c, v)[v := c[v]] == Below(c, v + 1);
        v := v + 1;
      }
      return true;
    }
  }

  lemma CopyOutStop(c: View, va: nat, data: seq<Byte>)
    requires data == [] || !UserPage(c, va / PGSIZE)
    ensures EagerCopyOut(c, va, data) == (c, data == [])
  {
  }

  lemma CopyPrefix(c: View, va: nat, data: seq<Byte>, done: nat, now: View, n: nat)
    requires done < |data| && n == Chunk(va + done, |data| - done)
    requires now == EagerStore(c, va, data[..done]) && UserPage(now, (va + done) / PGSIZE)
    ensures n + done <= |data| && data[done..][n..] == data[done + n..]
    ensures EagerStore(now, va + done, data[done..][..n]) == EagerStore(c, va, data[..done + n])
    ensures EagerCopyOut(now, va + done, data[done..]) == EagerCopyOut(EagerStore(c, va, data[..done + n]), va + done + n, data[done + n..])
  {
    hide EagerStore;
    PrefixSplit(data, done, n);
    StoreStore(c, va, data[..done], data[done..][..n]);
  }

  lemma PrefixSplit(data: seq<Byte>, done: nat, n: nat)
    requires done + n <= |data|
    ensures data[..done + n] == data[..done] + data[done..][..n] && data[done..][n..] == data[done + n..]
  {
  }
}
