/** umalloc.c: malloc and free over headers in memory, linked into a ring through `ptr`.
    The value of the ring is a FreeList; free and live blocks together are exactly the
    memory obtained from sbrk, and no cell belongs to two blocks.

    The user keeps to its blocks, so no header is overwritten.  What sbrk answers is a
    parameter of malloc: the start of an area that is not in use yet, or nothing. */
module Heap {
  import opened Common
  import opened FreeList

  type Headers = map<nat, nat>

  function Next(ring: seq<Blk>, i: nat): nat {
    if i + 1 < |ring| then i + 1 else 0
  }

  predicate LinkAt(ring: seq<Blk>, ptr: Headers, size: Headers, i: nat)
    requires i < |ring|
  {
    && ring[i].a in ptr && ring[i].a in size && size[ring[i].a] == ring[i].n
    && ptr[ring[i].a] == ring[Next(ring, i)].a
  }

  /** The ring is what one finds by following ptr. */
  ghost predicate Linked(ring: seq<Blk>, ptr: Headers, size: Headers) {
    forall i :: 0 <= i < |ring| ==> LinkAt(ring, ptr, size, i)
  }

  ghost predicate InLive(live: map<nat, nat>, x: nat) {
    exists a :: a in live && Within(Blk(a, live[a]), x)
  }

  /** Free and live blocks are disjoint and make up what was obtained, above the static header. */
  ghost predicate Accounts(ring: seq<Blk>, live: map<nat, nat>, obtained: set<nat>, base: nat) {
    && (forall a :: a in live ==> live[a] > 0)
    && (forall a, b, x: nat :: a in live && b in live && Within(Blk(a, live[a]), x) && Within(Blk(b, live[b]), x) ==> a == b)
    && (forall x: nat :: x in obtained <==> InFree(ring, x) || InLive(live, x))
    && (forall x: nat :: !(InFree(ring, x) && InLive(live, x)))
    && (forall x: nat :: x in obtained ==> base + HEADER <= x)
  }

  ghost predicate HeadersKept(live: map<nat, nat>, size: Headers) {
    forall a :: a in live ==> a in size && size[a] == live[a]
  }

  // ----------------------------------------------------------------- where a block goes

  /** The last block below address a. */
  ghost function Position(ring: seq<Blk>, a: nat): (k: nat)
    requires ring != [] && ring[0].a < a
    ensures k < |ring| && ring[k].a < a && (k + 1 < |ring| ==> a <= ring[k + 1].a)
  {
    var last := |ring| - 1;
    if ring[last].a < a then last else Position(ring[..last], a)
  }

  lemma LiveBlock(ring: seq<Blk>, live: map<nat, nat>, obtained: set<nat>, base: nat, a: nat)
    requires Based(ring, base) && Accounts(ring, live, obtained, base) && a in live
    ensures base < a && Between(ring, Position(ring, a), Blk(a, live[a]))
    ensures forall i :: 0 <= i < |ring| ==> ring[i].a != a
  {
    var b := Blk(a, live[a]);
    assert Within(b, a);
    assert InLive(live, a);
    var k := Position(ring, a);
    assert !Within(ring[k], a) by { if Within(ring[k], a) { assert InFree(ring, a); } }
    if k + 1 < |ring| {
      var next := ring[k + 1];
      assert Within(next, next.a) && InFree(ring, next.a);
      assert !Within(b, next.a) by { if Within(b, next.a) { assert InLive(live, next.a); } }
    }
    forall i | 0 <= i < |ring| ensures ring[i].a != a {
      assert i > 0 ==> Within(ring[i], ring[i].a) && InFree(ring, ring[i].a);
    }
  }

  lemma FreeAccounts(ring: seq<Blk>, live: map<nat, nat>, obtained: set<nat>, base: nat, k: nat, a: nat)
    requires Based(ring, base) && Accounts(ring, live, obtained, base) && a in live && k < |ring|
    ensures Accounts(Insert(ring, k, Blk(a, live[a])), live - {a}, obtained, base)
  {
    var b := Blk(a, live[a]);
    var ring', live' := Insert(ring, k, b), live - {a};
    forall x: nat
      ensures InFree(ring', x) <==> InFree(ring, x) || Within(b, x)
      ensures InLive(live, x) <==> InLive(live', x) || Within(b, x)
      ensures !(InLive(live', x) && Within(b, x))
    {
      InsertCells(ring, k, b, x);
      if c :| c in live && Within(Blk(c, live[c]), x) {
        assert c == a || (c in live' && Within(Blk(c, live'[c]), x));
      }
    }
  }

  lemma TakeAccounts(ring: seq<Blk>, live: map<nat, nat>, obtained: set<nat>, base: nat, k: nat, n: nat)
    requires Based(ring, base) && Accounts(ring, live, obtained, base) && 0 < k < |ring| && 0 < n <= ring[k].n
    ensures Taken(ring, k, n).a !in live
    ensures Accounts(Take(ring, k, n), live[Taken(ring, k, n).a := n], obtained, base)
  {
    var b := Taken(ring, k, n);
    var ring', live' := Take(ring, k, n), live[b.a := n];
    assert Within(ring[k], b.a) && InFree(ring, b.a);
    forall c | c in live ensures c != b.a {
      assert Within(Blk(c, live[c]), c) && InLive(live, c);
    }
    forall x: nat
      ensures InFree(ring, x) <==> InFree(ring', x) || Within(b, x)
      ensures !(InFree(ring', x) && Within(b, x))
      ensures InLive(live', x) <==> InLive(live, x) || Within(b, x)
    {
      TakeCells(ring, k, n, x);
      if Within(b, x) { assert b.a in live' && Within(Blk(b.a, live'[b.a]), x); }
      if c :| c in live && Within(Blk(c, live[c]), x) { assert c in live' && Within(Blk(c, live'[c]), x); }
    }
  }

  ghost function Area(a: nat, n: nat): set<nat> {
    set x | 0 <= x < End(Blk(a, n)) && Within(Blk(a, n), x)
  }

  /** New memory starts its life as a live block. */
  lemma AreaAccounts(ring: seq<Blk>, live: map<nat, nat>, obtained: set<nat>, base: nat, a: nat, n: nat)
    requires Based(ring, base) && Accounts(ring, live, obtained, base)
    requires n > 0 && base + HEADER <= a && Area(a, n) !! obtained
    ensures a !in live && Accounts(ring, live[a := n], obtained + Area(a, n), base)
  {
    var live' := live[a := n];
    assert Within(Blk(a, n), a);
    assert a in Area(a, n);
    forall c | c in live ensures c != a {
      assert Within(Blk(c, live[c]), c) && InLive(live, c);
    }
    assert forall x: nat :: x in Area(a, n) <==> Within(Blk(a, n), x);
    forall c, x: nat | c in live && Within(Blk(c, live[c]), x) ensures !Within(Blk(a, n), x) {
      assert InLive(live, x);
    }
    forall x: nat ensures InLive(live', x) <==> InLive(live, x) || x in Area(a, n) {
      if x in Area(a, n) { assert Within(Blk(a, live'[a]), x); }
      if c :| c in live && Within(Blk(c, live[c]), x) { assert c in live' && Within(Blk(c, live'[c]), x); }
    }
  }

  // ----------------------------------------------------------------- links

  ghost predicate OnRing(ring: seq<Blk>, p: nat) {
    exists i :: 0 <= i < |ring| && ring[i].a == p
  }

  /** The headers after `bp->s.ptr = ...` and `p->s.ptr = ...` in free. */
  function FreePtr(ptr: Headers, size: Headers, p: nat, bp: nat): (r: Headers)
    requires p in ptr && ptr[p] in ptr && bp in size && p in size && ptr[p] in size
  {
    var up := if bp + HEADER * size[bp] == ptr[p] then ptr[bp := ptr[ptr[p]]] else ptr[bp := ptr[p]];
    if p + HEADER * size[p] == bp then up[p := up[bp]] else up[p := bp]
  }

  function FreeSize(ptr: Headers, size: Headers, p: nat, bp: nat): (r: Headers)
    requires p in ptr && bp in size && p in size && ptr[p] in size
  {
    var up := if bp + HEADER * size[bp] == ptr[p] then size[bp := size[bp] + size[ptr[p]]] else size;
    if p + HEADER * size[p] == bp then up[p := up[p] + up[bp]] else up
  }

  /** Following the new pointers gives the ring with the block inserted. */
  lemma FreeLinked(ring: seq<Blk>, base: nat, ptr: Headers, size: Headers, k: nat, b: Blk)
    requires Based(ring, base) && Linked(ring, ptr, size) && Between(ring, k, b) && base < b.a
    requires b.a in size && size[b.a] == b.n && forall i :: 0 <= i < |ring| ==> ring[i].a != b.a
    ensures ring[k].a in ptr && ring[k].a in size && ptr[ring[k].a] in ptr && ptr[ring[k].a] in size
    ensures Linked(Insert(ring, k, b), FreePtr(ptr, size, ring[k].a, b.a), FreeSize(ptr, size, ring[k].a, b.a))
    ensures k < |Insert(ring, k, b)| && Insert(ring, k, b)[k].a == ring[k].a >= base
  {
    hide Insert, FreePtr, FreeSize, Chain;
    var p: nat, next: nat := ring[k].a, ring[Next(ring, k)].a;
    assert LinkAt(ring, ptr, size, k) && LinkAt(ring, ptr, size, Next(ring, k));
    var up, down := k + 1 < |ring| && End(b) == ring[k + 1].a, End(ring[k]) == b.a;
    assert up <==> b.a + HEADER * size[b.a] == next;
    assert down <==> p + HEADER * size[p] == b.a;
    var ring', ptr', size' := Insert(ring, k, b), FreePtr(ptr, size, p, b.a), FreeSize(ptr, size, p, b.a);
    InsertShape(ring, k, b);
    FreeHeaders(ptr, size, p, b.a);
    Distinct(ring, k);
    Lowest(ring, base, k);
    forall i | 0 <= i < |ring'| ensures LinkAt(ring', ptr', size', i) {
      InsertNext(ring, k, b, i);
      var mid := if down then k else k + 1;
      assert i < k ==> LinkAt(ring, ptr, size, i);
      assert i > mid ==> LinkAt(ring, ptr, size, i + |ring| - |ring'|);
    }
  }

  /** What comes after the i-th block of the new ring. */
  lemma InsertNext(ring: seq<Blk>, k: nat, b: Blk, i: nat)
    requires k < |ring| && i < |Insert(ring, k, b)|
    ensures var up, down := k + 1 < |ring| && End(b) == ring[k + 1].a, End(ring[k]) == b.a;
            var ring', mid := Insert(ring, k, b), if down then k else k + 1;
            var next := ring'[Next(ring', i)].a;
            && (i < k ==> ring'[i] == ring[i] && next == ring[Next(ring, i)].a)
            && (i == k && !down ==> next == b.a)
            && (i == mid ==> next == ring[Next(ring, if up then k + 1 else k)].a)
            && (i > mid ==>
                  && 0 <= i + |ring| - |ring'| < |ring|
                  && ring'[i] == ring[i + |ring| - |ring'|] && next == ring[Next(ring, i + |ring| - |ring'|)].a)
  {
    hide Insert;
    InsertShape(ring, k, b);
    var ring' := Insert(ring, k, b);
    assert ring'[0].a == ring[0].a && ring'[k].a == ring[k].a;
    if i + 1 < |ring'| {
      var j := i + 1;
      assert ring'[Next(ring', i)] == ring'[j];
      if j > k + (if End(ring[k]) == b.a then 0 else 1) {
        assert ring'[j] == ring[j + |ring| - |ring'|];
      }
    }
  }

  lemma Lowest(ring: seq<Blk>, base: nat, k: nat)
    requires Based(ring, base) && k < |ring|
    ensures base <= ring[k].a
  {
  }

  lemma Distinct(ring: seq<Blk>, k: nat)
    requires Chain(ring) && k < |ring|
    ensures forall i :: 0 <= i < |ring| && i != k ==> ring[i].a != ring[k].a
  {
  }

  lemma FreeHeaders(ptr: Headers, size: Headers, p: nat, bp: nat)
    requires p in ptr && ptr[p] in ptr && bp in size && p in size && ptr[p] in size && p != bp
    ensures var ptr', size' := FreePtr(ptr, size, p, bp), FreeSize(ptr, size, p, bp);
            var up, down := bp + HEADER * size[bp] == ptr[p], p + HEADER * size[p] == bp;
            var n, next := if up then size[bp] + size[ptr[p]] else size[bp], if up then ptr[ptr[p]] else ptr[p];
            && ptr'.Keys == ptr.Keys + {bp} && size'.Keys == size.Keys
            && (forall a :: a in ptr && a != p && a != bp ==> ptr'[a] == ptr[a])
            && (forall a :: a in size && a != p && a != bp ==> size'[a] == size[a])
            && ptr'[bp] == next && size'[bp] == n
            && ptr'[p] == (if down then next else bp) && size'[p] == (if down then size[p] + n else size[p])
  {
  }

  lemma InsertShape(ring: seq<Blk>, k: nat, b: Blk)
    requires k < |ring|
    ensures var up, down := k + 1 < |ring| && End(b) == ring[k + 1].a, End(ring[k]) == b.a;
            var ring' := Insert(ring, k, b);
            var n := if up then b.n + ring[k + 1].n else b.n;
            && |ring'| == |ring| + 1 - (if up then 1 else 0) - (if down then 1 else 0)
            && (forall i :: 0 <= i < k ==> ring'[i] == ring[i])
            && (down ==> ring'[k] == Blk(ring[k].a, ring[k].n + n))
            && (!down ==> ring'[k] == ring[k] && ring'[k + 1] == Blk(b.a, n))
            && (forall i :: k + (if down then 0 else 1) < i < |ring'| ==> ring'[i] == ring[i + |ring| - |ring'|])
  {
  }

  lemma InsertRoom(ring: seq<Blk>, k: nat, b: Blk)
    requires k < |ring|
    ensures exists i :: 0 <= i < |Insert(ring, k, b)| && Insert(ring, k, b)[i].n >= b.n
  {
    InsertShape(ring, k, b);
    var ring' := Insert(ring, k, b);
    assert if End(ring[k]) == b.a then ring'[k].n >= b.n else ring'[k + 1].n >= b.n;
  }

  /** Unlinking the block that comes after the one before it. */
  lemma UnlinkLinked(ring: seq<Blk>, ptr: Headers, size: Headers, k: nat)
    requires Chain(ring) && Linked(ring, ptr, size) && 0 < k < |ring|
    ensures ring[k].a in ptr && Linked(ring[..k] + ring[k + 1..], ptr[ring[k - 1].a := ptr[ring[k].a]], size)
  {
    hide Chain;
    var r, j := ring[..k] + ring[k + 1..], k - 1;
    Distinct(ring, j);
    assert LinkAt(ring, ptr, size, k) && LinkAt(ring, ptr, size, j);
    var ptr' := ptr[ring[j].a := ptr[ring[k].a]];
    forall i | 0 <= i < |r| ensures LinkAt(r, ptr', size, i) {
      var i' := if i < k then i else i + 1;
      assert LinkAt(ring, ptr, size, i') && r[i] == ring[i'];
      assert r[Next(r, i)] == ring[Next(ring, if i == j then k else i')];
    }
  }

  /** Cutting the tail off a block. */
  lemma ShrinkLinked(ring: seq<Blk>, ptr: Headers, size: Headers, k: nat, n: nat)
    requires Chain(ring) && Linked(ring, ptr, size) && 0 < k < |ring| && 0 < n < ring[k].n
    ensures Linked(ring[k := Blk(ring[k].a, ring[k].n - n)], ptr, size[ring[k].a := ring[k].n - n][Taken(ring, k, n).a := n])
  {
    hide Chain;
    var r, b := ring[k := Blk(ring[k].a, ring[k].n - n)], Taken(ring, k, n);
    var size' := size[ring[k].a := ring[k].n - n][b.a := n];
    assert ring[k].a < b.a < End(ring[k]);
    forall i | 0 <= i < |r| ensures LinkAt(r, ptr, size', i) {
      Apart(ring, k, i, b.a);
      assert LinkAt(ring, ptr, size, i);
      assert r[Next(r, i)].a == ring[Next(ring, i)].a;
    }
  }

  lemma Apart(ring: seq<Blk>, k: nat, i: nat, x: nat)
    requires Chain(ring) && k < |ring| && i < |ring| && ring[k].a < x < End(ring[k])
    ensures ring[i].a != x && (i != k ==> ring[i].a != ring[k].a)
  {
  }

  /** Where the search of free stops: at the one block that bp comes after. */
  lemma StopsAt(ring: seq<Blk>, base: nat, b: Blk, k: nat, i: nat)
    requires Based(ring, base) && Between(ring, k, b) && i < |ring|
    ensures var p, next := ring[i].a, ring[Next(ring, i)].a;
            ((b.a > p && b.a < next) || (p >= next && (b.a > p || b.a < next))) <==> i == k
    ensures var p, next := ring[i].a, ring[Next(ring, i)].a;
            p >= next <==> i + 1 == |ring|
  {
    assert ring[0].a <= ring[k].a < b.a;
    if i + 1 < |ring| {
      var j := i + 1;
      assert End(ring[i]) < ring[j].a;
      if i < k { assert ring[j].a <= ring[k].a; }
      if k < i { var l := k + 1; assert ring[l].a <= ring[i].a; }
    }
  }

  /** The block t steps after the f-th. */
  function Around(f: nat, t: nat, n: nat): (i: nat)
    requires f < n && t <= n
    ensures i < n
  {
    if f + t < n then f + t else f + t - n
  }

  /** Block k is the first with room for n units that one meets after the f-th, going round. */
  ghost predicate FirstFrom(ring: seq<Blk>, f: nat, n: nat, k: nat) {
    && f < |ring| && k < |ring| && ring[k].n >= n
    && exists t :: 1 <= t <= |ring| && Around(f, t, |ring|) == k && forall u :: 1 <= u < t ==> ring[Around(f, u, |ring|)].n < n
  }

  /** malloc takes the tail end of the first block after freep that has room, and begins its next
      search before that block. */
  ghost predicate FirstFit(ring: seq<Blk>, freep: nat, n: nat, ring': seq<Blk>, freep': nat, r: nat) {
    exists f, k :: FitsAt(ring, freep, n, ring', freep', r, f, k)
  }

  ghost predicate FitsAt(ring: seq<Blk>, freep: nat, n: nat, ring': seq<Blk>, freep': nat, r: nat, f: nat, k: nat) {
    && FirstFrom(ring, f, n, k) && ring[f].a == freep && 0 < k
    && r == Taken(ring, k, n).a && ring' == Take(ring, k, n) && freep' == ring[k - 1].a
  }

  /** The same after the area at hp, which morecore got, has been freed into the ring. */
  ghost predicate FitAfterMore(ring: seq<Blk>, hp: nat, n: nat, ring': seq<Blk>, freep': nat, r: nat) {
    && ring != [] && ring[0].a < hp
    && var k := Position(ring, hp);
       FirstFit(Insert(ring, k, Blk(hp, MoreUnits(n))), ring[k].a, n, ring', freep', r)
  }

  predicate HasRoom(ring: seq<Blk>, n: nat) {
    exists i :: 0 <= i < |ring| && ring[i].n >= n
  }

  // ----------------------------------------------------------------- sizes

  /** sizeof(Header) units for nbytes and a header. */
  function Units(nbytes: nat): nat {
    (nbytes + HEADER - 1) / HEADER + 1
  }

  function MoreUnits(n: nat): nat {
    if n < 4096 then 4096 else n
  }

  /** What malloc computes, in uint arithmetic. */
  function Nunits(nbytes: nat): nat {
    (nbytes + HEADER - 1) % UINT / HEADER + 1
  }

  /** The int that morecore passes to sbrk for n units. */
  function SbrkArg(n: nat): int {
    var bytes := HEADER * MoreUnits(n) % UINT;
    if bytes < 0x80000000 then bytes else bytes - UINT
  }

  /** sbrk is asked for the memory that morecore then takes. */
  predicate AsksRight(n: nat) {
    SbrkArg(n) == HEADER * MoreUnits(n)
  }

  /** The sizes come out right exactly for requests that take less than 2 GB with their header. */
  lemma RequestExact(nbytes: nat)
    requires nbytes < UINT
    ensures Nunits(nbytes) == Units(nbytes) && SbrkArg(Nunits(nbytes)) == HEADER * MoreUnits(Units(nbytes))
       <==> HEADER * Units(nbytes) < 0x80000000
  {
  }

  /** A request gets the smallest number of units that has room for it and a header; sbrk is asked
      for at least 4096 units, and for no more if that is enough. */
  lemma UnitsLeast(nbytes: nat, u: nat)
    ensures Units(nbytes) <= u <==> u >= 1 && nbytes <= HEADER * (u - 1)
    ensures MoreUnits(u) >= u && MoreUnits(u) >= 4096 && (MoreUnits(u) == u || MoreUnits(u) == 4096)
  {
  }

  /** The block has room for the request exactly if the sum in malloc does not wrap round. */
  lemma RoomExact(nbytes: nat)
    requires nbytes < UINT
    ensures nbytes <= HEADER * (Nunits(nbytes) - 1) <==> nbytes + HEADER - 1 < UINT
  {
  }

  /** 2 GB: sbrk is asked to shrink.  8 bytes below 4 GB: it is asked for nothing.  One byte
      below: one unit, and a sbrk that can succeed. */
  lemma RequestsThatFail()
    ensures SbrkArg(Nunits(0x80000000)) == -0x7FFFFFF8
    ensures SbrkArg(Nunits(0xFFFFFFF8)) == 0
    ensures Nunits(0xFFFFFFFF) == 1 && SbrkArg(Nunits(0xFFFFFFFF)) == 32768
  {
  }

  predicate Added(a: nat, len: int, x: nat) {
    a <= x < a + len
  }

  /** The bytes that a growth by len from a on has added. */
  ghost function Bytes(a: nat, len: int): set<nat> {
    set x | 0 <= x < a + len && Added(a, len, x)
  }

  /** morecore takes n units at a, of which sbrk has granted len bytes: free and live blocks
      are then what was obtained exactly if that is all of them. */
  lemma GrantExact(ring: seq<Blk>, live: map<nat, nat>, obtained: set<nat>, base: nat, a: nat, n: nat, len: int)
    requires Based(ring, base) && Accounts(ring, live, obtained, base)
    requires n > 0 && base + HEADER <= a && Area(a, n) !! obtained && len <= HEADER * n
    ensures Accounts(ring, live[a := n], obtained + Bytes(a, len), base) <==> len == HEADER * n
  {
    if len == HEADER * n {
      AreaAccounts(ring, live, obtained, base, a, n);
      assert Bytes(a, len) == Area(a, n);
    } else {
      var live', x := live[a := n], a + HEADER * n - 1;
      assert Within(Blk(a, live'[a]), x);
      assert InLive(live', x);
      assert x in Area(a, n) && x !in Bytes(a, len);
    }
  }

  class Heap {
    const base: nat
    /** The ptr and size fields of the headers in memory, and the static freep (0 for null). */
    var ptr: Headers
    var size: Headers
    var freep: nat
    ghost var ring: seq<Blk>
    /** Blocks the program holds: header address and size. */
    ghost var live: map<nat, nat>
    ghost var obtained: set<nat>

    ghost predicate Valid()
      reads this
    {
      && base > 0
      && (if freep == 0 then ring == [] && live == map[] && obtained == {}
          else Based(ring, base) && Linked(ring, ptr, size) && OnRing(ring, freep))
      && Accounts(ring, live, obtained, base) && HeadersKept(live, size)
    }

    constructor (base: nat)
      requires base > 0
      ensures Valid() && this.base == base && live == map[] && obtained == {}
    {
      this.base := base;
      ptr, size, freep, ring, live, obtained := map[], map[], 0, [], map[], {};
    }

    /** The search loop of free: the ring block below bp, found wherever the walk starts. */
    method Find(bp: nat) returns (p: nat)
      requires Valid() && bp in live
      ensures freep != 0 && base < bp && ring != [] && p == ring[Position(ring, bp)].a
    {
      hide Chain, Accounts, HeadersKept;
      LiveBlock(ring, live, obtained, base, bp);
      ghost var n, k := |ring|, Position(ring, bp);
      ghost var b := Blk(bp, live[bp]);
      ghost var i :| 0 <= i < n && ring[i].a == freep;
      p := freep;
      assert LinkAt(ring, ptr, size, i);
      StopsAt(ring, base, b, k, i);
      while !(bp > p && bp < ptr[p])
        invariant 0 <= i < n && p == ring[i].a && p in ptr && ptr[p] == ring[Next(ring, i)].a
        invariant (bp > p && bp < ptr[p]) || (p >= ptr[p] && (bp > p || bp < ptr[p])) <==> i == k
        decreases if i <= k then k - i else n - i + k
      {
        if p >= ptr[p] && (bp > p || bp < ptr[p]) { break; }
        p := ptr[p];
        i := Next(ring, i);
        assert LinkAt(ring, ptr, size, i);
        StopsAt(ring, base, b, k, i);
      }
    }

    /** free: the block joins the ring, and its neighbours if they are adjacent. */
    method Free(bp: nat)
      requires Valid() && bp in live
      modifies this
      ensures Valid() && freep != 0 && live == old(live) - {bp} && obtained == old(obtained)
      ensures base < bp && old(ring) != []
      ensures ring == Insert(old(ring), Position(old(ring), bp), Blk(bp, old(live)[bp]))
      ensures freep == old(ring)[Position(old(ring), bp)].a
    {
      hide Chain, Accounts, Insert, FreePtr, FreeSize;
      var p: nat := Find(bp);
      ghost var k, b := Position(ring, bp), Blk(bp, live[bp]);
      LiveBlock(ring, live, obtained, base, bp);
      FreeLinked(ring, base, ptr, size, k, b);
      FreeHeaders(ptr, size, p, bp);
      InsertBased(ring, base, k, b);
      FreeAccounts(ring, live, obtained, base, k, bp);
      forall a | a in live ensures a != p {
        LiveBlock(ring, live, obtained, base, a);
      }
      Splice(p, bp);
      freep := p;
      ring, live := Insert(ring, k, b), live - {bp};
    }

    /** The assignments of free. */
    method Splice(p: nat, bp: nat)
      requires p in ptr && ptr[p] in ptr && bp in size && p in size && ptr[p] in size
      modifies this`ptr, this`size
      ensures ptr == FreePtr(old(ptr), old(size), p, bp) && size == FreeSize(old(ptr), old(size), p, bp)
    {
      if bp + HEADER * size[bp] == ptr[p] {
        size := size[bp := size[bp] + size[ptr[p]]];
        ptr := ptr[bp := ptr[ptr[p]]];
      } else {
        ptr := ptr[bp := ptr[p]];
      }
      if p + HEADER * size[p] == bp {
        size := size[p := size[p] + size[bp]];
        ptr := ptr[p := ptr[bp]];
      } else {
        ptr := ptr[p := bp];
      }
    }

    /** The body of the branch of malloc that has found room in p. */
    method Carve(prevp: nat, p: nat, n: nat, ghost k: nat) returns (r: nat)
      requires Valid() && freep != 0 && 0 < k < |ring| && prevp == ring[k - 1].a && p == ring[k].a && 0 < n <= ring[k].n
      modifies this
      ensures Valid() && freep != 0 && obtained == old(obtained)
      ensures r == Taken(old(ring), k, n).a && r !in old(live) && live == old(live)[r := n] && ring == Take(old(ring), k, n)
      ensures freep == prevp
    {
      hide Chain, Accounts, InFree, InLive;
      ghost var ring0, j := ring, k - 1;
      TakeBased(ring, base, k, n);
      TakeAccounts(ring, live, obtained, base, k, n);
      assert LinkAt(ring, ptr, size, k) && LinkAt(ring, ptr, size, j);
      Lowest(ring, base, j);
      Lowest(ring, base, k);
      forall a | a in live ensures a != p && a != prevp {
        LiveBlock(ring, live, obtained, base, a);
      }
      if size[p] == n {
        UnlinkLinked(ring, ptr, size, k);
        ptr := ptr[prevp := ptr[p]];
        r := p;
      } else {
        ShrinkLinked(ring, ptr, size, k, n);
        size := size[p := size[p] - n];
        r := p + HEADER * size[p];
        size := size[r := n];
      }
      freep := prevp;
      ring, live := Take(ring, k, n), live[r := n];
      assert ring[j].a == prevp;
    }

    /** The loop of malloc, once round the ring: the first block after freep with room for n
        units gives up its tail end; 0 when there is none. */
    method Search(n: nat) returns (r: nat)
      requires Valid() && freep != 0 && n > 0
      modifies this
      ensures Valid() && freep != 0 && obtained == old(obtained)
      ensures r == 0 ==> ring == old(ring) && live == old(live) && forall i :: 0 <= i < |ring| ==> ring[i].n < n
      ensures r != 0 ==> r !in old(live) && live == old(live)[r := n] && FirstFit(old(ring), old(freep), n, ring, freep, r)
      ensures r == 0 ==> freep == old(freep)
      ensures HasRoom(old(ring), n) <==> r != 0
    {
      hide Chain, Accounts, InFree, InLive, HeadersKept;
      ghost var m := |ring|;
      ghost var f: nat :| f < m && ring[f].a == freep;
      ghost var seen: nat := 0;
      assert LinkAt(ring, ptr, size, f);
      var prevp: nat := freep;
      var p: nat := ptr[prevp];
      while true
        invariant seen < m && prevp == ring[Around(f, seen, m)].a && p == ring[Around(f, seen + 1, m)].a
        invariant forall t :: 1 <= t <= seen ==> ring[Around(f, t, m)].n < n
        invariant unchanged(this)
        decreases m - seen
      {
        ghost var k := Around(f, seen + 1, m);
        assert LinkAt(ring, ptr, size, k);
        if size[p] >= n {
          Lowest(ring, base, k);
          assert FirstFrom(ring, f, n, k) by { assert Around(f, seen + 1, m) == k; }
          BeforeIt(ring, f, seen, k);
          r := Carve(prevp, p, n, k);
          assert FitsAt(old(ring), old(freep), n, ring, freep, r, f, k);
          return r;
        }
        if p == freep {
          SameBlock(ring, base, k, f);
          forall i | 0 <= i < m ensures ring[i].n < n {
            var t := if i > f then i - f else i + m - f;
            assert Around(f, t, m) == i;
          }
          return 0;
        }
        prevp, p := p, ptr[p];
        seen := seen + 1;
      }
    }

    /** morecore: new memory goes through free. */
    method Morecore(n: nat, more: Option<nat>) returns (ok: bool)
      requires Valid() && freep != 0 && n > 0
      requires more.Some? ==> base + HEADER <= more.value && Area(more.value, MoreUnits(n)) !! obtained
      modifies this
      ensures Valid() && freep != 0 && live == old(live) && ok == more.Some?
      ensures !ok ==> ring == old(ring) && obtained == old(obtained)
      ensures ok ==> obtained == old(obtained) + Area(more.value, MoreUnits(n))
      ensures ok ==> HasRoom(ring, n)
      ensures !ok ==> freep == old(freep)
      ensures ok ==> base < more.value && old(ring) != [] && old(ring)[0].a == base
      ensures ok ==>
                var k := Position(old(ring), more.value);
                ring == Insert(old(ring), k, Blk(more.value, MoreUnits(n))) && freep == old(ring)[k].a
    {
      hide Chain, Positive, Accounts, Linked, Insert, Position, Area;
      var nu := if n < 4096 then 4096 else n;
      match more
      case None => return false;
      case Some(hp) =>
        ghost var live0 := live;
        Obtain(hp, nu);
        ghost var ring0 := ring;
        Free(hp);
        InsertRoom(ring0, Position(ring0, hp), Blk(hp, nu));
        assert live == live0;
        return true;
    }

    /** What sbrk has granted, with its size in its header, is a block of the program's. */
    method Obtain(hp: nat, nu: nat)
      requires Valid() && freep != 0 && nu > 0 && base + HEADER <= hp && Area(hp, nu) !! obtained
      modifies this`size, this`live, this`obtained
      ensures Valid() && hp !in old(live) && live == old(live)[hp := nu] && obtained == old(obtained) + Area(hp, nu)
    {
      hide Chain, Positive, Accounts, Linked, Area;
      AreaAccounts(ring, live, obtained, base, hp, nu);
      LiveBlock(ring, live[hp := nu], obtained + Area(hp, nu), base, hp);
      ResizeLinked(ring, ptr, size, hp, nu);
      size := size[hp := nu];
      live, obtained := live[hp := nu], obtained + Area(hp, nu);
    }

    /** malloc.  A block that was nobody's, of Nunits(nbytes) units; or 0, if no free block is
        that large and sbrk fails.  sbrk is asked only if no block is that large.  If it grants
        what it was asked for and that is not what morecore takes, the heap is broken, and the
        model stops there (GrantExact); this and a block that is too small need a request of
        2 GB or more. */
    method Malloc(nbytes: nat, more: Option<nat>) returns (r: nat, broken: bool)
      requires Valid() && nbytes < UINT
      requires more.Some? && AsksRight(Nunits(nbytes)) ==>
                 base + HEADER <= more.value && Area(more.value, MoreUnits(Nunits(nbytes))) !! obtained
      modifies this
      ensures Valid()
      ensures broken ==> more.Some? && !AsksRight(Nunits(nbytes))
      ensures r == 0 || broken ==>
                && (broken || more.None?) && live == old(live) && obtained == old(obtained)
                && forall i :: 0 <= i < |ring| ==> ring[i].n < Nunits(nbytes)
      ensures r != 0 && !broken ==>
                && r >= HEADER && r - HEADER !in old(live) && live == old(live)[r - HEADER := Nunits(nbytes)]
                && (r + nbytes <= End(Blk(r - HEADER, Nunits(nbytes))) <==> nbytes + HEADER - 1 < UINT)
      ensures HEADER * Units(nbytes) < 0x80000000 ==>
                !broken && (r != 0 ==> live == old(live)[r - HEADER := Units(nbytes)] && r + nbytes <= End(Blk(r - HEADER, Units(nbytes))))
      ensures obtained != old(obtained) ==>
                && more.Some? && obtained == old(obtained) + Area(more.value, MoreUnits(Nunits(nbytes)))
                && forall i :: 0 <= i < |old(ring)| ==> old(ring)[i].n < Nunits(nbytes)
      ensures r != 0 && !broken ==>
                var ring0, freep0 := if old(freep) == 0 then [Blk(base, 0)] else old(ring), if old(freep) == 0 then base else old(freep);
                if HasRoom(ring0, Nunits(nbytes)) then FirstFit(ring0, freep0, Nunits(nbytes), ring, freep, r - HEADER)
                else more.Some? && FitAfterMore(ring0, more.value, Nunits(nbytes), ring, freep, r - HEADER)
    {
      hide Chain, Accounts, InFree, InLive, HeadersKept, SbrkArg, Linked, FirstFit, Insert, Position;
      RequestExact(nbytes);
      RoomExact(nbytes);
      var nunits := (nbytes + HEADER - 1) % UINT / HEADER + 1;
      if freep == 0 {
        Start();
      }
      var p := Search(nunits);
      if p == 0 {
        if more.Some? && !AsksRight(nunits) { return 0, true; }
        var ok := Morecore(nunits, more);
        if !ok { return 0, false; }
        p := Search(nunits);
      }
      return p + HEADER, false;
    }

    /** The static header becomes the whole ring. */
    method Start()
      requires Valid() && freep == 0
      modifies this
      ensures Valid() && freep != 0 && live == old(live) && obtained == old(obtained) && ring == [Blk(base, 0)]
    {
      ptr, size, freep := ptr[base := base], size[base := 0], base;
      ring := [Blk(base, 0)];
    }
  }

  lemma BeforeIt(ring: seq<Blk>, f: nat, seen: nat, k: nat)
    requires f < |ring| && seen < |ring| && k == Around(f, seen + 1, |ring|) && k > 0
    ensures Around(f, seen, |ring|) == k - 1
  {
  }

  lemma SameBlock(ring: seq<Blk>, base: nat, k: nat, f: nat)
    requires Based(ring, base) && k < |ring| && f < |ring| && ring[k].a == ring[f].a
    ensures k == f
  {
  }

  lemma ResizeLinked(ring: seq<Blk>, ptr: Headers, size: Headers, a: nat, n: nat)
    requires Linked(ring, ptr, size) && forall i :: 0 <= i < |ring| ==> ring[i].a != a
    ensures Linked(ring, ptr, size[a := n])
  {
    var size' := size[a := n];
    forall i | 0 <= i < |ring| ensures LinkAt(ring, ptr, size', i) {
      assert LinkAt(ring, ptr, size, i);
    }
  }
}
