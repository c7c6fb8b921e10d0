/** Two-level page tables over numbered physical pages, and who owns each page.

    A page is at a place (the directory of a process, one of its page tables, or behind
    one of its user pages), on the free list, or held by the kernel for something else;
    `Ok` says that it is exactly one of these. */
module PageTables {
  import opened Common

  const NENTRIES := 1024
  const KERNBASE := 0x80000000
  /** User pages below KERNBASE; their directory slots are below NUSERDIR. */
  const NUSER := 524288
  const NUSERDIR := 512

  /** A page-directory or page-table entry: the page number and PTE_P, PTE_W, PTE_U, PTE_SSU. */
  datatype Pte = Pte(page: nat, p: bool, w: bool, u: bool, ssu: bool)

  const NONE := Pte(0, false, false, false, false)
  const RESERVED := Pte(0, false, true, true, true)

  type Tables = seq<seq<Pte>>

  /** Every page read as 1024 entries, the directory page of each process, the free list. */
  datatype Mem = Mem(tables: Tables, dirs: map<nat, nat>, free: seq<nat>)

  datatype Place = Dir(pid: nat) | Table(pid: nat, d: nat) | User(pid: nat, v: nat)

  function Entry(t: Tables, page: nat, i: nat): Pte {
    if 0 < page < |t| && i < |t[page]| then t[page][i] else NONE
  }

  function PageOf(e: Pte): nat {
    if e.p then e.page else 0
  }

  /** The page-table page behind a directory slot, or 0. */
  function TableAt(m: Mem, pid: nat, d: nat): nat
    requires pid in m.dirs
  {
    PageOf(Entry(m.tables, m.dirs[pid], d))
  }

  /** The entry of user page v: what walkpgdir(pgdir, va, 0) points at, or NONE. */
  function PteAt(m: Mem, pid: nat, v: nat): Pte
    requires pid in m.dirs
  {
    Entry(m.tables, TableAt(m, pid, v / NENTRIES), v % NENTRIES)
  }

  predicate ValidPlace(m: Mem, q: Place) {
    q.pid in m.dirs && (q.Table? ==> q.d < NENTRIES) && (q.User? ==> q.v < NUSER)
  }

  function PageAt(m: Mem, q: Place): nat
    requires ValidPlace(m, q)
  {
    match q
    case Dir(pid) => m.dirs[pid]
    case Table(pid, d) => TableAt(m, pid, d)
    case User(pid, v) => PageOf(PteAt(m, pid, v))
  }

  predicate Shape(m: Mem) {
    forall i :: 0 <= i < |m.tables| ==> |m.tables[i]| == NENTRIES
  }

  /** Directories exist, and all pages in use are real pages. */
  ghost predicate InRange(m: Mem) {
    forall q :: ValidPlace(m, q) ==> PageAt(m, q) < |m.tables| && (q.Dir? ==> PageAt(m, q) != 0)
  }

  ghost predicate Injective(m: Mem) {
    forall q, r :: ValidPlace(m, q) && ValidPlace(m, r) && PageAt(m, q) != 0 && PageAt(m, q) == PageAt(m, r) ==> q == r
  }

  ghost predicate Placed(m: Mem, page: nat) {
    page != 0 && exists q :: ValidPlace(m, q) && PageAt(m, q) == page
  }

  /** Each page is in exactly one of three states: placed, free, or other kernel use. */
  ghost predicate Partition(m: Mem, other: set<nat>) {
    && Distinct(m.free)
    && (forall page :: page in m.free ==> 0 < page < |m.tables| && page !in other && !Placed(m, page))
    && (forall page :: page in other ==> 0 < page < |m.tables| && !Placed(m, page))
    && (forall page :: 0 < page < |m.tables| ==> page in m.free || page in other || Placed(m, page))
  }

  ghost predicate Ok(m: Mem, other: set<nat>) {
    Shape(m) && InRange(m) && Injective(m) && Partition(m, other)
  }

  // ----------------------------------------------------------------- the free list

  lemma TakeFree(m: Mem, other: set<nat>)
    requires Ok(m, other) && m.free != []
    ensures Ok(m.(free := m.free[1..]), other + {m.free[0]})
  {
    var m' := m.(free := m.free[1..]);
    SamePlaces(m, m');
    assert forall page :: page in m.free <==> page == m.free[0] || page in m'.free;
  }

  lemma GiveFree(m: Mem, other: set<nat>, page: nat)
    requires Ok(m, other) && page in other
    ensures Ok(m.(free := [page] + m.free), other - {page})
  {
    var m' := m.(free := [page] + m.free);
    SamePlaces(m, m');
    assert forall x :: x in m'.free <==> x == page || x in m.free;
  }

  lemma SamePlaces(m: Mem, m': Mem)
    requires Shape(m) && m'.tables == m.tables && m'.dirs == m.dirs
    ensures Shape(m')
    ensures forall q :: ValidPlace(m, q) <==> ValidPlace(m', q)
    ensures forall q :: ValidPlace(m, q) ==> PageAt(m', q) == PageAt(m, q)
    ensures forall page :: Placed(m', page) <==> Placed(m, page)
    ensures InRange(m) ==> InRange(m')
    ensures Injective(m) ==> Injective(m')
  {
    assert forall q :: ValidPlace(m, q) ==> PageAt(m', q) == PageAt(m, q);
  }

  // ----------------------------------------------------------------- writing entries

  function SetEntry(m: Mem, page: nat, i: nat, e: Pte): (m': Mem)
    requires page < |m.tables| && i < |m.tables[page]|
    ensures |m'.tables| == |m.tables|
  {
    m.(tables := m.tables[page := m.tables[page][i := e]])
  }

  lemma SetEntryEntry(m: Mem, page: nat, i: nat, e: Pte, x: nat, j: nat)
    requires Shape(m) && 0 < page < |m.tables| && i < NENTRIES
    ensures Entry(SetEntry(m, page, i, e).tables, x, j) == (if x == page && j == i then e else Entry(m.tables, x, j))
  {
  }

  /** Writing the entry of user page v changes that entry only. */
  lemma WritePte(m: Mem, pid: nat, v: nat, e: Pte, q: nat, u: nat)
    requires Shape(m) && InRange(m) && Injective(m)
    requires pid in m.dirs && v < NUSER && TableAt(m, pid, v / NENTRIES) != 0 && q in m.dirs
    ensures TableAt(m, pid, v / NENTRIES) < |m.tables|
    ensures var m' := SetEntry(m, TableAt(m, pid, v / NENTRIES), v % NENTRIES, e);
            && (u < NENTRIES ==> TableAt(m', q, u) == TableAt(m, q, u))
            && (u < NUSER ==> PteAt(m', q, u) == (if q == pid && u == v then e else PteAt(m, q, u)))
  {
    var here := Table(pid, v / NENTRIES);
    var page := PageAt(m, here);
    assert ValidPlace(m, here) && ValidPlace(m, Dir(q));
    assert m.dirs[q] == PageAt(m, Dir(q)) != page;
    if u < NENTRIES {
      SetEntryEntry(m, page, v % NENTRIES, e, m.dirs[q], u);
    }
    if u < NUSER {
      var there := Table(q, u / NENTRIES);
      assert ValidPlace(m, there);
      SetEntryEntry(m, page, v % NENTRIES, e, m.dirs[q], u / NENTRIES);
      SetEntryEntry(m, page, v % NENTRIES, e, PageAt(m, there), u % NENTRIES);
    }
  }

  /** Installing a zeroed page table changes that directory slot and no user entry. */
  lemma WritePde(m: Mem, pid: nat, d: nat, e: Pte, q: nat, u: nat)
    requires Shape(m) && InRange(m) && Injective(m)
    requires pid in m.dirs && d < NENTRIES && TableAt(m, pid, d) == 0 && q in m.dirs
    requires e.p && 0 < e.page < |m.tables| && !Placed(m, e.page)
    requires forall i :: 0 <= i < NENTRIES ==> m.tables[e.page][i] == NONE
    ensures 0 < m.dirs[pid] < |m.tables|
    ensures var m' := SetEntry(m, m.dirs[pid], d, e);
            && (u < NENTRIES ==> TableAt(m', q, u) == (if q == pid && u == d then e.page else TableAt(m, q, u)))
            && (u < NUSER ==> PteAt(m', q, u) == PteAt(m, q, u))
  {
    var page := PageAt(m, Dir(pid));
    assert ValidPlace(m, Dir(pid)) && ValidPlace(m, Dir(q));
    assert q != pid ==> m.dirs[q] == PageAt(m, Dir(q)) != page;
    if u < NENTRIES {
      SetEntryEntry(m, page, d, e, m.dirs[q], u);
    }
    if u < NUSER {
      var there := Table(q, u / NENTRIES);
      assert ValidPlace(m, there) && PageAt(m, there) != page;
      SetEntryEntry(m, page, d, e, m.dirs[q], u / NENTRIES);
      SetEntryEntry(m, page, d, e, PageAt(m, there), u % NENTRIES);
      SetEntryEntry(m, page, d, e, e.page, u % NENTRIES);
    }
  }

  // ----------------------------------------------------------------- ownership moves

  /** All places hold the same page as before, except one. */
  ghost predicate OnlyAt(m: Mem, m': Mem, here: Place, page: nat) {
    && Shape(m') && m'.dirs == m.dirs && |m'.tables| == |m.tables| && m'.free == m.free
    && ValidPlace(m, here)
    && forall q :: ValidPlace(m, q) ==> PageAt(m', q) == (if q == here then page else PageAt(m, q))
  }

  lemma OnlyAtPlaced(m: Mem, m': Mem, here: Place, page: nat, x: nat)
    requires OnlyAt(m, m', here, page) && Injective(m)
    ensures Placed(m', x) <==> x != 0 && (x == page || (Placed(m, x) && x != PageAt(m, here)))
  {
    if x != 0 && x == page {
      assert ValidPlace(m', here) && PageAt(m', here) == x;
    }
    if Placed(m, x) && x != PageAt(m, here) {
      var q :| ValidPlace(m, q) && PageAt(m, q) == x;
      assert ValidPlace(m', q) && PageAt(m', q) == x;
    }
    if Placed(m', x) && x != page {
      var q :| ValidPlace(m', q) && PageAt(m', q) == x;
      assert ValidPlace(m, q) && q != here && PageAt(m, q) == x;
    }
  }

  /** A page held by the kernel moves to an empty place. */
  lemma Gain(m: Mem, m': Mem, other: set<nat>, here: Place, page: nat)
    requires Ok(m, other) && page in other && OnlyAt(m, m', here, page) && PageAt(m, here) == 0
    ensures Ok(m', other - {page})
  {
    forall x: nat ensures Placed(m', x) <==> x == page || Placed(m, x) {
      OnlyAtPlaced(m, m', here, page, x);
    }
    forall q, r | ValidPlace(m', q) && ValidPlace(m', r) && PageAt(m', q) != 0 && PageAt(m', q) == PageAt(m', r)
      ensures q == r
    {
      assert ValidPlace(m, q) && ValidPlace(m, r);
      assert (PageAt(m, q) != page || q == here) && (PageAt(m, r) != page || r == here);
    }
  }

  /** The page at a place is taken back by the kernel. */
  lemma Lose(m: Mem, m': Mem, other: set<nat>, here: Place)
    requires Ok(m, other) && OnlyAt(m, m', here, 0) && PageAt(m, here) != 0 && !here.Dir?
    ensures Ok(m', other + {PageAt(m, here)})
  {
    forall x: nat ensures Placed(m', x) <==> Placed(m, x) && x != PageAt(m, here) {
      OnlyAtPlaced(m, m', here, 0, x);
    }
    assert Placed(m, PageAt(m, here));
  }

  /** Nothing moves. */
  lemma Keep(m: Mem, m': Mem, other: set<nat>, here: Place)
    requires Ok(m, other) && ValidPlace(m, here) && OnlyAt(m, m', here, PageAt(m, here))
    ensures Ok(m', other)
  {
    forall x: nat ensures Placed(m', x) <==> Placed(m, x) {
      OnlyAtPlaced(m, m', here, PageAt(m, here), x);
    }
  }

  // ----------------------------------------------------------------- the kernel's moves

  /** Only the entry of user page v of process pid is new. */
  ghost predicate PteOnly(m: Mem, m': Mem, pid: nat, v: nat, e: Pte) {
    && m'.dirs == m.dirs && m'.free == m.free && |m'.tables| == |m.tables|
    && (forall q, d :: q in m.dirs && 0 <= d < NENTRIES ==> TableAt(m', q, d) == TableAt(m, q, d))
    && (forall q, u :: q in m.dirs && 0 <= u < NUSER ==>
          PteAt(m', q, u) == (if q == pid && u == v then e else PteAt(m, q, u)))
  }

  lemma StorePte(m: Mem, other: set<nat>, pid: nat, v: nat, e: Pte)
    requires Ok(m, other) && pid in m.dirs && v < NUSER && TableAt(m, pid, v / NENTRIES) != 0
    ensures TableAt(m, pid, v / NENTRIES) < |m.tables|
    ensures var m' := SetEntry(m, TableAt(m, pid, v / NENTRIES), v % NENTRIES, e);
            && Shape(m') && PteOnly(m, m', pid, v, e) && OnlyAt(m, m', User(pid, v), PageOf(e))
  {
    assert ValidPlace(m, Table(pid, v / NENTRIES));
    var m' := SetEntry(m, TableAt(m, pid, v / NENTRIES), v % NENTRIES, e);
    forall q, d | q in m.dirs && 0 <= d < NENTRIES ensures TableAt(m', q, d) == TableAt(m, q, d) {
      WritePte(m, pid, v, e, q, d);
    }
    forall q, u | q in m.dirs && 0 <= u < NUSER
      ensures PteAt(m', q, u) == (if q == pid && u == v then e else PteAt(m, q, u))
    {
      WritePte(m, pid, v, e, q, u);
    }
  }

  /** A page the kernel holds is mapped, or a mapped page is taken back, or neither:
      whichever the old and the new entry say. */
  lemma StoreOk(m: Mem, other: set<nat>, pid: nat, v: nat, e: Pte)
    requires Ok(m, other) && pid in m.dirs && v < NUSER && TableAt(m, pid, v / NENTRIES) != 0
    requires PteAt(m, pid, v).p ==> !e.p && PteAt(m, pid, v).page != 0
    requires e.p ==> e.page in other
    ensures TableAt(m, pid, v / NENTRIES) < |m.tables|
    ensures var m' := SetEntry(m, TableAt(m, pid, v / NENTRIES), v % NENTRIES, e);
            && PteOnly(m, m', pid, v, e)
            && Ok(m', if e.p then other - {e.page} else if PteAt(m, pid, v).p then other + {PteAt(m, pid, v).page} else other)
  {
    StorePte(m, other, pid, v, e);
    var m' := SetEntry(m, TableAt(m, pid, v / NENTRIES), v % NENTRIES, e);
    if e.p {
      Gain(m, m', other, User(pid, v), e.page);
    } else if PteAt(m, pid, v).p {
      Lose(m, m', other, User(pid, v));
    } else {
      Keep(m, m', other, User(pid, v));
    }
  }

  /** The contents of a page that is at no place do not matter. */
  lemma Scratch(m: Mem, other: set<nat>, page: nat, t: seq<Pte>)
    requires Ok(m, other) && page in other && |t| == NENTRIES
    ensures var m' := m.(tables := m.tables[page := t]);
            && Ok(m', other)
            && (forall q, d :: q in m.dirs && 0 <= d < NENTRIES ==> TableAt(m', q, d) == TableAt(m, q, d))
            && (forall q, u :: q in m.dirs && 0 <= u < NUSER ==> PteAt(m', q, u) == PteAt(m, q, u))
  {
    var m' := m.(tables := m.tables[page := t]);
    forall q, d | q in m.dirs && 0 <= d < NENTRIES ensures TableAt(m', q, d) == TableAt(m, q, d) {
      assert ValidPlace(m, Dir(q)) && PageAt(m, Dir(q)) != page;
    }
    forall q, u | q in m.dirs && 0 <= u < NUSER ensures PteAt(m', q, u) == PteAt(m, q, u) {
      assert ValidPlace(m, Table(q, u / NENTRIES)) && PageAt(m, Table(q, u / NENTRIES)) != page;
    }
    if q :| q in m.dirs {
      Keep(m, m', other, Dir(q));
    } else {
      forall x: nat ensures Placed(m', x) <==> Placed(m, x) { }
    }
  }

  /** Only the directory slot d of process pid is new; user entries are as before. */
  ghost predicate TableOnly(m: Mem, m': Mem, pid: nat, d: nat, page: nat) {
    && m'.dirs == m.dirs && m'.free == m.free && |m'.tables| == |m.tables|
    && (forall q, c :: q in m.dirs && 0 <= c < NENTRIES ==>
          TableAt(m', q, c) == (if q == pid && c == d then page else TableAt(m, q, c)))
    && (forall q, u :: q in m.dirs && 0 <= u < NUSER ==> PteAt(m', q, u) == PteAt(m, q, u))
  }

  function ZeroTable(): (t: seq<Pte>)
    ensures |t| == NENTRIES && forall i :: 0 <= i < NENTRIES ==> t[i] == NONE
  {
    seq(NENTRIES, i => NONE)
  }

  /** A zeroed page becomes a page table. */
  lemma AddTable(m: Mem, other: set<nat>, pid: nat, d: nat, page: nat)
    requires Ok(m, other) && pid in m.dirs && d < NENTRIES && TableAt(m, pid, d) == 0
    requires page in other && m.tables[page] == ZeroTable()
    ensures 0 < m.dirs[pid] < |m.tables|
    ensures var m' := SetEntry(m, m.dirs[pid], d, Pte(page, true, true, true, false));
            TableOnly(m, m', pid, d, page) && Ok(m', other - {page})
  {
    assert ValidPlace(m, Dir(pid)) && PageAt(m, Dir(pid)) != 0;
    var e := Pte(page, true, true, true, false);
    var m' := SetEntry(m, m.dirs[pid], d, e);
    forall q, c | q in m.dirs && 0 <= c < NENTRIES
      ensures TableAt(m', q, c) == (if q == pid && c == d then page else TableAt(m, q, c))
    {
      WritePde(m, pid, d, e, q, c);
    }
    forall q, u | q in m.dirs && 0 <= u < NUSER ensures PteAt(m', q, u) == PteAt(m, q, u) {
      WritePde(m, pid, d, e, q, u);
    }
    Gain(m, m', other, Table(pid, d), page);
  }

  /** A zeroed page becomes the directory of a new process: nothing is mapped in it. */
  lemma AddDir(m: Mem, other: set<nat>, pid: nat, page: nat)
    requires Ok(m, other) && pid !in m.dirs && page in other && m.tables[page] == ZeroTable()
    ensures var m' := m.(dirs := m.dirs[pid := page]);
            && Ok(m', other - {page})
            && (forall d :: 0 <= d < NENTRIES ==> TableAt(m', pid, d) == 0)
            && (forall u :: 0 <= u < NUSER ==> PteAt(m', pid, u) == NONE)
  {
    var m' := m.(dirs := m.dirs[pid := page]);
    forall q | ValidPlace(m', q) && q.pid == pid ensures PageAt(m', q) == (if q.Dir? then page else 0) { }
    forall q | ValidPlace(m, q) ensures ValidPlace(m', q) && PageAt(m', q) == PageAt(m, q) { }
    forall x: nat ensures Placed(m', x) <==> x == page || Placed(m, x) {
      assert ValidPlace(m', Dir(pid)) && PageAt(m', Dir(pid)) == page;
      if Placed(m, x) {
        var q :| ValidPlace(m, q) && PageAt(m, q) == x;
        assert PageAt(m', q) == x;
      }
      if Placed(m', x) && x != page {
        var q :| ValidPlace(m', q) && PageAt(m', q) == x;
        assert ValidPlace(m, q) && PageAt(m, q) == x;
      }
    }
  }

  ghost function TablePages(m: Mem, pid: nat): set<nat>
    requires pid in m.dirs
  {
    set d | 0 <= d < NENTRIES && TableAt(m, pid, d) != 0 :: TableAt(m, pid, d)
  }

  /** A process with no user page left gives up its directory and its page tables. */
  lemma DropDir(m: Mem, other: set<nat>, pid: nat)
    requires Ok(m, other) && pid in m.dirs
    requires forall u :: 0 <= u < NUSER ==> PageOf(PteAt(m, pid, u)) == 0
    ensures Ok(m.(dirs := m.dirs - {pid}), other + {m.dirs[pid]} + TablePages(m, pid))
    ensures m.dirs[pid] !in other && TablePages(m, pid) !! other && m.dirs[pid] !in TablePages(m, pid)
  {
    var m' := m.(dirs := m.dirs - {pid});
    var gone := {m.dirs[pid]} + TablePages(m, pid);
    forall q | ValidPlace(m', q) ensures ValidPlace(m, q) && PageAt(m', q) == PageAt(m, q) { }
    forall x | x in gone ensures 0 < x < |m.tables| && Placed(m, x) && !Placed(m', x) && x !in other && x !in m.free {
      GonePage(m, m', pid, x);
    }
    forall x: nat | Placed(m, x) ensures x in gone || Placed(m', x) {
      var q :| ValidPlace(m, q) && PageAt(m, q) == x;
      if q.pid != pid {
        assert ValidPlace(m', q) && PageAt(m', q) == x;
      }
    }
    forall x: nat | Placed(m', x) ensures Placed(m, x) {
      var q :| ValidPlace(m', q) && PageAt(m', q) == x;
      assert ValidPlace(m, q) && PageAt(m, q) == x;
    }
    assert PageAt(m, Dir(pid)) == m.dirs[pid];
    forall d | 0 <= d < NENTRIES ensures TableAt(m, pid, d) != m.dirs[pid] {
      assert ValidPlace(m, Table(pid, d)) && PageAt(m, Table(pid, d)) == TableAt(m, pid, d);
    }
  }

  lemma GonePage(m: Mem, m': Mem, pid: nat, x: nat)
    requires Shape(m) && InRange(m) && Injective(m) && pid in m.dirs && m' == m.(dirs := m.dirs - {pid})
    requires x == m.dirs[pid] || x in TablePages(m, pid)
    requires forall q :: ValidPlace(m', q) ==> ValidPlace(m, q) && PageAt(m', q) == PageAt(m, q)
    ensures 0 < x < |m.tables| && Placed(m, x) && !Placed(m', x)
  {
    var r := Dir(pid);
    if x != m.dirs[pid] {
      var d :| 0 <= d < NENTRIES && TableAt(m, pid, d) == x && x != 0;
      r := Table(pid, d);
    }
    assert ValidPlace(m, r) && PageAt(m, r) == x;
    assert ValidPlace(m, Dir(pid)) && PageAt(m, Dir(pid)) != 0;
    forall q | ValidPlace(m', q) ensures PageAt(m', q) != x { }
  }
}
