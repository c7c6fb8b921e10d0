/** What a process can see of its memory, and the memory it would see if every page
    were allocated, zeroed, at the moment it is asked for. */
module UserView {
  import opened PageTables

  const PGSIZE := 4096

  type Byte = bv8
  type Page = seq<Byte>

  function ZeroPage(): (z: Page)
    ensures |z| == PGSIZE && forall i :: 0 <= i < PGSIZE ==> z[i] == 0
  {
    seq(PGSIZE, i => 0 as Byte)
  }

  /** One page of an address space: not there, or its bytes and whether it can be written
      and reached in user mode. */
  datatype Cell = Absent | Cell(data: Page, w: bool, u: bool)

  const ZEROCELL := Cell(ZeroPage(), true, true)

  type View = seq<Cell>

  /** A present page shows its bytes.  A page that ssualloc has reserved shows what an access
      will find there once the fault has been served: zeros, writable, for the user. */
  function CellOf(e: Pte, y: seq<Page>): Cell {
    if e.p then Cell(if e.page < |y| then y[e.page] else ZeroPage(), e.w, e.u)
    else if e.ssu then ZEROCELL
    else Absent
  }

  /** What a process sees of its user pages. */
  ghost function ViewOf(m: Mem, y: seq<Page>, pid: nat): (r: View)
    requires pid in m.dirs
    ensures |r| == NUSER && forall v :: 0 <= v < NUSER ==> r[v] == CellOf(PteAt(m, pid, v), y)
  {
    seq(NUSER, v requires 0 <= v < NUSER => CellOf(PteAt(m, pid, v), y))
  }

  ghost predicate NonZero(m: Mem) {
    forall q, u :: q in m.dirs && 0 <= u < NUSER ==> PteAt(m, q, u).p ==> PteAt(m, q, u).page != 0
  }

  ghost predicate Good(m: Mem, y: seq<Page>, other: set<nat>) {
    && Ok(m, other) && NonZero(m)
    && |y| == |m.tables| && forall i :: 0 <= i < |y| ==> |y[i]| == PGSIZE
  }

  /** Every mapped page keeps its bytes. */
  ghost predicate MappedKept(m: Mem, y: seq<Page>, y': seq<Page>) {
    && |y'| == |y|
    && forall q, u :: q in m.dirs && 0 <= u < NUSER ==>
         PteAt(m, q, u).p ==> PteAt(m, q, u).page < |y| && y'[PteAt(m, q, u).page] == y[PteAt(m, q, u).page]
  }

  /** Pages held by the kernel may be overwritten. */
  lemma ScratchKept(m: Mem, y: seq<Page>, other: set<nat>, page: nat, data: Page)
    requires Good(m, y, other) && page in other
    ensures MappedKept(m, y, y[page := data])
  {
    forall q, u | q in m.dirs && 0 <= u < NUSER && PteAt(m, q, u).p
      ensures PteAt(m, q, u).page != page && PteAt(m, q, u).page < |y|
    {
      assert ValidPlace(m, User(q, u)) && PageAt(m, User(q, u)) == PteAt(m, q, u).page;
    }
  }

  lemma ViewSame(m: Mem, y: seq<Page>, m': Mem, y': seq<Page>, q: nat)
    requires q in m.dirs && q in m'.dirs && MappedKept(m, y, y')
    requires forall u :: 0 <= u < NUSER ==> PteAt(m', q, u) == PteAt(m, q, u)
    ensures ViewOf(m', y', q) == ViewOf(m, y, q)
  {
  }

  /** Writing the entry of page v: the view of that page becomes what the entry says. */
  lemma ViewStore(m: Mem, y: seq<Page>, other: set<nat>, m': Mem, other': set<nat>, pid: nat, v: nat, e: Pte)
    requires Good(m, y, other) && Ok(m', other') && PteOnly(m, m', pid, v, e) && pid in m.dirs && v < NUSER
    requires e.p ==> e.page != 0
    ensures Good(m', y, other')
    ensures ViewOf(m', y, pid) == ViewOf(m, y, pid)[v := CellOf(e, y)]
    ensures forall q :: q in m.dirs && q != pid ==> ViewOf(m', y, q) == ViewOf(m, y, q)
  {
    KeptSelf(m, y, other);
    forall u | 0 <= u < NUSER
      ensures ViewOf(m', y, pid)[u] == ViewOf(m, y, pid)[v := CellOf(e, y)][u]
    {
      assert PteAt(m', pid, u) == (if u == v then e else PteAt(m, pid, u));
    }
    forall q | q in m.dirs && q != pid ensures ViewOf(m', y, q) == ViewOf(m, y, q) {
      ViewSame(m, y, m', y, q);
    }
  }

  /** No user entry of any process differs. */
  ghost predicate SamePtes(m: Mem, m': Mem) {
    && m'.dirs == m.dirs && |m'.tables| == |m.tables|
    && forall q, u :: q in m.dirs && 0 <= u < NUSER ==> PteAt(m', q, u) == PteAt(m, q, u)
  }

  /** No directory slot of any process differs. */
  ghost predicate SameTables(m: Mem, m': Mem) {
    m'.dirs == m.dirs && forall q, d :: q in m.dirs && 0 <= d < NENTRIES ==> TableAt(m', q, d) == TableAt(m, q, d)
  }

  lemma KeptSelf(m: Mem, y: seq<Page>, other: set<nat>)
    requires Good(m, y, other)
    ensures MappedKept(m, y, y)
  {
    forall q, u | q in m.dirs && 0 <= u < NUSER && PteAt(m, q, u).p ensures PteAt(m, q, u).page < |y| {
      PageReal(m, other, q, u);
    }
  }

  /** Moving pages about below the user entries is invisible. */
  lemma Invisible(m: Mem, y: seq<Page>, other: set<nat>, m': Mem, y': seq<Page>, other': set<nat>)
    requires Good(m, y, other) && Ok(m', other') && SamePtes(m, m') && MappedKept(m, y, y')
    requires forall i :: 0 <= i < |y'| ==> |y'[i]| == PGSIZE
    ensures Good(m', y', other')
    ensures forall q :: q in m.dirs ==> ViewOf(m', y', q) == ViewOf(m, y, q)
  {
    forall q | q in m.dirs ensures ViewOf(m', y', q) == ViewOf(m, y, q) {
      ViewSame(m, y, m', y', q);
    }
  }

  lemma OtherPage(m: Mem, other: set<nat>, pid: nat, v: nat, q: nat, u: nat)
    requires Ok(m, other) && NonZero(m) && pid in m.dirs && v < NUSER && q in m.dirs && u < NUSER
    requires PteAt(m, pid, v).p && PteAt(m, q, u).p && !(q == pid && u == v)
    ensures PteAt(m, q, u).page != PteAt(m, pid, v).page
  {
    assert ValidPlace(m, User(q, u)) && ValidPlace(m, User(pid, v));
  }

  lemma PageReal(m: Mem, other: set<nat>, pid: nat, v: nat)
    requires Ok(m, other) && NonZero(m) && pid in m.dirs && v < NUSER && PteAt(m, pid, v).p
    ensures 0 < PteAt(m, pid, v).page < |m.tables| && PteAt(m, pid, v).page !in other
  {
    assert ValidPlace(m, User(pid, v)) && PageAt(m, User(pid, v)) == PteAt(m, pid, v).page;
  }

  /** Writing bytes of the page behind (pid, v) is seen there and nowhere else. */
  lemma ViewWrite(m: Mem, y: seq<Page>, other: set<nat>, pid: nat, v: nat, data: Page)
    requires Good(m, y, other) && pid in m.dirs && v < NUSER && PteAt(m, pid, v).p
    ensures PteAt(m, pid, v).page < |y|
    ensures var y' := y[PteAt(m, pid, v).page := data];
            && ViewOf(m, y', pid) == ViewOf(m, y, pid)[v := ViewOf(m, y, pid)[v].(data := data)]
            && (forall q :: q in m.dirs && q != pid ==> ViewOf(m, y', q) == ViewOf(m, y, q))
  {
    PageReal(m, other, pid, v);
    var y' := y[PteAt(m, pid, v).page := data];
    forall u | 0 <= u < NUSER
      ensures ViewOf(m, y', pid)[u] == ViewOf(m, y, pid)[v := ViewOf(m, y, pid)[v].(data := data)][u]
    {
      if u != v && PteAt(m, pid, u).p { OtherPage(m, other, pid, v, pid, u); }
    }
    forall q | q in m.dirs && q != pid ensures ViewOf(m, y', q) == ViewOf(m, y, q) {
      forall u | 0 <= u < NUSER ensures ViewOf(m, y', q)[u] == ViewOf(m, y, q)[u] {
        if PteAt(m, q, u).p { OtherPage(m, other, pid, v, q, u); }
      }
    }
  }

  // ----------------------------------------------------------------- the eager memory

  /** ceil(sz / PGSIZE): the first page at or after sz. */
  function PageUp(sz: nat): nat {
    (sz + PGSIZE - 1) / PGSIZE
  }

  /** Zeroed pages lo..hi appear at once. */
  function EagerGrow(c: View, lo: nat, hi: nat): (r: View)
    ensures |r| == |c| && forall v :: 0 <= v < |c| ==> r[v] == if lo <= v < hi then ZEROCELL else c[v]
  {
    seq(|c|, v requires 0 <= v < |c| => if lo <= v < hi then ZEROCELL else c[v])
  }

  /** Pages lo..hi disappear. */
  function EagerCut(c: View, lo: nat, hi: nat): (r: View)
    ensures |r| == |c| && forall v :: 0 <= v < |c| ==> r[v] == if lo <= v < hi then Absent else c[v]
  {
    seq(|c|, v requires 0 <= v < |c| => if lo <= v < hi then Absent else c[v])
  }

  lemma GrowNext(c: View, lo: nat, hi: nat)
    requires lo <= hi < |c|
    ensures EagerGrow(c, lo, hi + 1) == EagerGrow(c, lo, hi)[hi := ZEROCELL]
  {
  }

  lemma CutNext(c: View, lo: nat, hi: nat)
    requires lo <= hi < |c|
    ensures EagerCut(c, lo, hi + 1) == EagerCut(c, lo, hi)[hi := Absent]
  {
  }

  /** Undoing a growth that had got as far as `at`. */
  lemma CutGrown(c: View, lo: nat, at: nat, hi: nat)
    requires lo <= at <= hi && forall v :: 0 <= v < |c| && lo <= v ==> c[v] == Absent
    ensures EagerCut(EagerGrow(c, lo, at), lo, hi) == c
  {
  }

  /** A page with part of its bytes replaced: data goes to address va, the page is at base. */
  function PatchPage(p: Page, base: nat, va: nat, data: seq<Byte>): (r: Page)
    ensures |r| == |p|
  {
    seq(|p|, k requires 0 <= k < |p| => if va <= base + k < va + |data| then data[base + k - va] else p[k])
  }

  /** data stored at address va of every page that is there. */
  function EagerStore(c: View, va: nat, data: seq<Byte>): (r: View)
    ensures |r| == |c|
  {
    seq(|c|, v requires 0 <= v < |c| =>
          if c[v].Cell? then c[v].(data := PatchPage(c[v].data, v * PGSIZE, va, data)) else Absent)
  }

  predicate UserPage(c: View, v: nat) {
    v < |c| && c[v].Cell? && c[v].u
  }

  /** What copyout does to an eager memory, page by page: the new view, and whether it got
      to the end. */
  function EagerCopyOut(c: View, va: nat, data: seq<Byte>): (View, bool)
    decreases |data|
  {
    if data == [] then (c, true)
    else if !UserPage(c, va / PGSIZE) then (c, false)
    else
      var n := Chunk(va, |data|);
      EagerCopyOut(EagerStore(c, va, data[..n]), va + n, data[n..])
  }

  /** Bytes from va to the end of its page, and no more than there are. */
  function Chunk(va: nat, len: nat): (n: nat)
    ensures len > 0 ==> 0 < n <= len
    ensures n <= len && va % PGSIZE + n <= PGSIZE
  {
    if PGSIZE - va % PGSIZE > len then len else PGSIZE - va % PGSIZE
  }

  lemma StoreStore(c: View, va: nat, d: seq<Byte>, d': seq<Byte>)
    ensures EagerStore(EagerStore(c, va, d), va + |d|, d') == EagerStore(c, va, d + d')
  {
    forall v | 0 <= v < |c|
      ensures EagerStore(EagerStore(c, va, d), va + |d|, d')[v] == EagerStore(c, va, d + d')[v]
    {
      if c[v].Cell? {
        PatchPatch(c[v].data, v * PGSIZE, va, d, d');
      }
    }
  }

  lemma PatchPatch(p: Page, base: nat, va: nat, d: seq<Byte>, d': seq<Byte>)
    ensures PatchPage(PatchPage(p, base, va, d), base, va + |d|, d') == PatchPage(p, base, va, d + d')
  {
  }

  /** A store does not change which pages belong to the user. */
  lemma StoreUser(c: View, va: nat, d: seq<Byte>)
    ensures forall v: nat :: UserPage(EagerStore(c, va, d), v) <==> UserPage(c, v)
  {
  }

  lemma StoreNothing(c: View, va: nat)
    ensures EagerStore(c, va, []) == c
  {
    forall v | 0 <= v < |c| ensures EagerStore(c, va, [])[v] == c[v] {
      if c[v].Cell? {
        assert PatchPage(c[v].data, v * PGSIZE, va, []) == c[v].data;
      }
    }
  }

  /** A store within one page changes that page only. */
  lemma StorePage(c: View, va: nat, d: seq<Byte>)
    requires va / PGSIZE < |c| && c[va / PGSIZE].Cell? && va % PGSIZE + |d| <= PGSIZE
    requires forall v :: 0 <= v < |c| && c[v].Cell? ==> |c[v].data| == PGSIZE
    ensures var v := va / PGSIZE;
            EagerStore(c, va, d) == c[v := c[v].(data := PatchPage(c[v].data, v * PGSIZE, va, d))]
  {
    var v := va / PGSIZE;
    forall u | 0 <= u < |c| && u != v ensures EagerStore(c, va, d)[u] == c[u] {
      if c[u].Cell? {
        assert u < v || u >= v + 1;
        assert PatchPage(c[u].data, u * PGSIZE, va, d) == c[u].data;
      }
    }
  }

  /** The copy gets to the end exactly when every page it touches belongs to the user, and
      then all the data is stored; otherwise it stored what comes before the first page
      that does not. */
  lemma {:induction false} CopyOutMeans(c: View, va: nat, data: seq<Byte>) returns (k: nat)
    ensures k <= |data| && EagerCopyOut(c, va, data).0 == EagerStore(c, va, data[..k])
    ensures forall i :: va <= i < va + k ==> UserPage(c, i / PGSIZE)
    ensures EagerCopyOut(c, va, data).1 <==> k == |data|
    ensures k < |data| ==> !UserPage(c, (va + k) / PGSIZE)
    decreases |data|
  {
    hide EagerStore, PatchPage;
    StoreNothing(c, va);
    if data == [] || !UserPage(c, va / PGSIZE) {
      k := 0;
      assert data[..0] == [];
    } else {
      var n := Chunk(va, |data|);
      var c' := EagerStore(c, va, data[..n]);
      var j := CopyOutMeans(c', va + n, data[n..]);
      k := n + j;
      StoreStore(c, va, data[..n], data[n..][..j]);
      assert data[..k] == data[..n] + data[n..][..j];
      StoreUser(c, va, data[..n]);
      forall i | va <= i < va + k ensures UserPage(c, i / PGSIZE) {
        if i >= va + n {
          assert UserPage(c', i / PGSIZE);
        } else {
          assert i / PGSIZE == va / PGSIZE;
        }
      }
    }
  }

  // ----------------------------------------------------------------- frames

  /** Nothing differs in the address spaces of processes other than pid. */
  ghost predicate SameBut(m: Mem, m': Mem, pid: nat) {
    && |m'.tables| == |m.tables|
    && (forall q :: q != pid ==> (q in m'.dirs <==> q in m.dirs) && (q in m.dirs ==> m'.dirs[q] == m.dirs[q]))
    && (forall q, d :: q in m.dirs && q != pid && 0 <= d < NENTRIES ==> q in m'.dirs && TableAt(m', q, d) == TableAt(m, q, d))
    && (forall q, u :: q in m.dirs && q != pid && 0 <= u < NUSER ==> q in m'.dirs && PteAt(m', q, u) == PteAt(m, q, u))
  }

  lemma SameButTrans(m: Mem, m': Mem, m'': Mem, pid: nat)
    requires SameBut(m, m', pid) && SameBut(m', m'', pid)
    ensures SameBut(m, m'', pid)
  {
  }

  /** Every virtual page has the same physical page behind it, or none, as before. */
  ghost predicate SameMapped(m: Mem, m': Mem) {
    && m'.dirs == m.dirs
    && forall q, u :: q in m.dirs && 0 <= u < NUSER ==>
         PteAt(m', q, u).p == PteAt(m, q, u).p && (PteAt(m, q, u).p ==> PteAt(m', q, u) == PteAt(m, q, u))
  }

  lemma SamePtesOf(m: Mem, m': Mem, pid: nat, q: nat)
    requires SameBut(m, m', pid) && q in m.dirs && q != pid
    ensures q in m'.dirs && forall u :: 0 <= u < NUSER ==> PteAt(m', q, u) == PteAt(m, q, u)
  {
  }

  lemma SelfSame(m: Mem, pid: nat)
    ensures SameBut(m, m, pid) && SameMapped(m, m)
  {
  }

  lemma StillSame(m: Mem, m': Mem, m'': Mem, pid: nat)
    requires SameBut(m, m', pid) && SameMapped(m, m') && SameBut(m', m'', pid) && SameMapped(m', m'')
    ensures SameBut(m, m'', pid) && SameMapped(m, m'')
  {
    SameButTrans(m, m', m'', pid);
  }

  /** Which pages are free follows from who holds the others. */
  lemma FreeDetermined(m: Mem, m': Mem, other: set<nat>, x: nat)
    requires Ok(m, other) && Ok(m', other) && SamePtes(m, m') && SameTables(m, m')
    ensures x in m'.free <==> x in m.free
  {
    forall q ensures ValidPlace(m, q) <==> ValidPlace(m', q) { }
    forall q | ValidPlace(m, q) ensures PageAt(m', q) == PageAt(m, q) { }
    assert Placed(m', x) <==> Placed(m, x);
  }

  /** Processes other than pid keep their pages, page tables and views. */
  ghost predicate Apart(m: Mem, y: seq<Page>, m': Mem, y': seq<Page>, pid: nat) {
    && SameBut(m, m', pid)
    && forall q :: q in m.dirs && q != pid ==> q in m'.dirs && ViewOf(m', y', q) == ViewOf(m, y, q)
  }

  lemma ApartTrans(m: Mem, y: seq<Page>, m': Mem, y': seq<Page>, m'': Mem, y'': seq<Page>, pid: nat)
    requires Apart(m, y, m', y', pid) && Apart(m', y', m'', y'', pid)
    ensures Apart(m, y, m'', y'', pid)
  {
    SameButTrans(m, m', m'', pid);
  }

  lemma ApartSame(m: Mem, y: seq<Page>, m': Mem, y': seq<Page>, pid: nat)
    requires SameBut(m, m', pid) && m'.dirs == m.dirs
    requires forall q :: q in m.dirs && q != pid ==> ViewOf(m', y', q) == ViewOf(m, y, q)
    ensures Apart(m, y, m', y', pid)
  {
  }

  function NoPages(): (r: View)
    ensures |r| == NUSER && forall v :: 0 <= v < NUSER ==> r[v] == Absent
  {
    seq(NUSER, v => Absent)
  }

  lemma NewDirViews(m: Mem, y: seq<Page>, other: set<nat>, pid: nat, page: nat)
    requires Good(m, y, other) && pid !in m.dirs && page in other && m.tables[page] == ZeroTable()
    ensures var m' := m.(dirs := m.dirs[pid := page]);
            && Good(m', y, other - {page}) && Apart(m, y, m', y, pid) && ViewOf(m', y, pid) == NoPages()
  {
    var m' := m.(dirs := m.dirs[pid := page]);
    AddDir(m, other, pid, page);
    forall q, u | q in m'.dirs && 0 <= u < NUSER ensures PteAt(m', q, u) == if q == pid then NONE else PteAt(m, q, u) { }
    KeptSelf(m, y, other);
    forall q | q in m.dirs ensures ViewOf(m', y, q) == ViewOf(m, y, q) {
      ViewSame(m, y, m', y, q);
    }
  }

  /** How many of the first n user pages of a process have memory. */
  ghost function Present(m: Mem, pid: nat, n: nat): (k: nat)
    requires pid in m.dirs
    ensures k <= n
  {
    if n == 0 then 0 else Present(m, pid, n - 1) + if PteAt(m, pid, n - 1).p then 1 else 0
  }

  /** setupkvm maps KERNBASE .. KERNBASE + PHYSTOP and DEVSPACE .. 4G: 56 and 8 page tables. */
  predicate KernelSlot(d: nat) {
    512 <= d < 568 || 1016 <= d < 1024
  }

  const PHYSTOP := 0xE000000
  const DEVSPACE := 0xFE000000

  /** These are the slots of the addresses that setupkvm maps. */
  lemma KernelSlotIs(d: nat)
    ensures KernelSlot(d) <==>
              exists va: nat :: va / (NENTRIES * PGSIZE) == d && (KERNBASE <= va < KERNBASE + PHYSTOP || DEVSPACE <= va < 0x1_0000_0000)
  {
    var va := d * (NENTRIES * PGSIZE);
    assert va / (NENTRIES * PGSIZE) == d;
  }

  /** The pages that the first n entries of a directory page point at. */
  ghost function PagesIn(t: seq<Pte>, n: nat): set<nat>
    requires n <= |t|
  {
    set d | 0 <= d < n && PageOf(t[d]) != 0 :: PageOf(t[d])
  }

  lemma DropDirViews(m: Mem, y: seq<Page>, other: set<nat>, pid: nat)
    requires Good(m, y, other) && pid in m.dirs && ViewOf(m, y, pid) == NoPages()
    ensures m.dirs[pid] < |m.tables| && |m.tables[m.dirs[pid]]| == NENTRIES
    ensures var m', dir, t := m.(dirs := m.dirs - {pid}), m.dirs[pid], m.tables[m.dirs[pid]];
            && Good(m', y, other + {dir} + PagesIn(t, NENTRIES)) && Apart(m, y, m', y, pid)
            && dir !in other && dir !in PagesIn(t, NENTRIES) && PagesIn(t, NENTRIES) !! other
            && (forall c, d :: 0 <= c < d < NENTRIES && PageOf(t[c]) != 0 ==> PageOf(t[c]) != PageOf(t[d]))
  {
    var m' := m.(dirs := m.dirs - {pid});
    assert ValidPlace(m, Dir(pid)) && PageAt(m, Dir(pid)) == m.dirs[pid];
    var t := m.tables[m.dirs[pid]];
    forall u | 0 <= u < NUSER ensures !PteAt(m, pid, u).p {
      assert ViewOf(m, y, pid)[u] == Absent;
    }
    DropDir(m, other, pid);
    assert forall d :: 0 <= d < NENTRIES ==> TableAt(m, pid, d) == PageOf(t[d]);
    assert TablePages(m, pid) == PagesIn(t, NENTRIES);
    forall c, d | 0 <= c < d < NENTRIES && PageOf(t[c]) != 0 ensures PageOf(t[c]) != PageOf(t[d]) {
      assert ValidPlace(m, Table(pid, c)) && ValidPlace(m, Table(pid, d));
      assert PageAt(m, Table(pid, c)) == PageOf(t[c]) && PageAt(m, Table(pid, d)) == PageOf(t[d]);
    }
    forall q, u | q in m'.dirs && 0 <= u < NUSER ensures PteAt(m', q, u) == PteAt(m, q, u) { }
    KeptSelf(m, y, other);
    forall q | q in m'.dirs ensures ViewOf(m', y, q) == ViewOf(m, y, q) {
      ViewSame(m, y, m', y, q);
    }
  }

  /** The first n pages only. */
  function Below(c: View, n: nat): (r: View)
    ensures |r| == |c| && forall v :: 0 <= v < |c| ==> r[v] == if v < n then c[v] else Absent
  {
    seq(|c|, v requires 0 <= v < |c| => if v < n then c[v] else Absent)
  }

  lemma ApartView(m: Mem, y: seq<Page>, m': Mem, y': seq<Page>, pid: nat, q: nat)
    requires Apart(m, y, m', y', pid) && q in m.dirs && q != pid
    ensures q in m'.dirs && ViewOf(m', y', q) == ViewOf(m, y, q)
  {
  }

  /** An address space that was built and taken down again has left no page behind. */
  lemma Returned(m: Mem, y: seq<Page>, m': Mem, y': seq<Page>, other: set<nat>, pid: nat)
    requires Good(m, y, other) && Good(m', y', other) && Apart(m, y, m', y', pid) && pid !in m.dirs && pid !in m'.dirs
    ensures m'.dirs == m.dirs && forall x :: x in m'.free <==> x in m.free
  {
    forall x ensures x in m'.free <==> x in m.free {
      FreeDetermined(m, m', other, x);
    }
  }

  /** Of process pid only the entry of page v may be new. */
  ghost predicate OtherPtes(m: Mem, m': Mem, pid: nat, v: nat) {
    pid in m.dirs && pid in m'.dirs && forall u :: 0 <= u < NUSER && u != v ==> PteAt(m', pid, u) == PteAt(m, pid, u)
  }

  /** Of the first n pages, the child has memory for exactly those for which the parent has. */
  ghost predicate SamePresent(m: Mem, parent: nat, m': Mem, child: nat, n: nat) {
    && parent in m.dirs && child in m'.dirs
    && forall u :: 0 <= u < n && u < NUSER ==> PteAt(m', child, u).p == PteAt(m, parent, u).p
  }

  lemma PresentVia(m: Mem, y: seq<Page>, m1: Mem, y1: seq<Page>, m2: Mem, parent: nat, child: nat, n: nat)
    requires Apart(m, y, m1, y1, child) && parent in m.dirs && parent != child && SamePresent(m1, parent, m2, child, n)
    ensures SamePresent(m, parent, m2, child, n)
  {
    forall u | 0 <= u < n && u < NUSER ensures PteAt(m2, child, u).p == PteAt(m, parent, u).p {
      assert PteAt(m1, parent, u) == PteAt(m, parent, u);
    }
  }

  lemma NonePresent(m: Mem, parent: nat, child: nat)
    requires parent in m.dirs && child in m.dirs
    ensures SamePresent(m, parent, m, child, 0)
  {
  }

  lemma PresentNext(m: Mem, parent: nat, m1: Mem, m2: Mem, child: nat, v: nat)
    requires SamePresent(m, parent, m1, child, v) && OtherPtes(m1, m2, child, v) && v < NUSER
    requires PteAt(m2, child, v).p == PteAt(m, parent, v).p
    ensures SamePresent(m, parent, m2, child, v + 1)
  {
  }
}
