/** The free list of umalloc.c as a value: blocks in address order, starting with the static
    header.  An address counts bytes, a block's size counts headers of 8 bytes. */
module FreeList {

  const HEADER := 8

  datatype Blk = Blk(a: nat, n: nat)

  function End(b: Blk): nat {
    b.a + HEADER * b.n
  }

  predicate Within(b: Blk, x: nat) {
    b.a <= x < End(b)
  }

  /** Ascending, and with a gap between any two blocks: no two free blocks are adjacent. */
  predicate Chain(s: seq<Blk>) {
    forall i, j :: 0 <= i < j < |s| ==> End(s[i]) < s[j].a
  }

  /** The ring starts with the static header, of size 0. */
  predicate Based(ring: seq<Blk>, base: nat) {
    |ring| > 0 && ring[0] == Blk(base, 0) && Chain(ring) && Positive(ring)
  }

  ghost predicate InFree(ring: seq<Blk>, x: nat) {
    exists i :: 0 <= i < |ring| && Within(ring[i], x)
  }

  // ----------------------------------------------------------------- freeing

  /** b followed by the blocks above it, joined with the first of them if that is adjacent. */
  function JoinUp(b: Blk, rest: seq<Blk>): seq<Blk> {
    if rest != [] && End(b) == rest[0].a then [Blk(b.a, b.n + rest[0].n)] + rest[1..] else [b] + rest
  }

  function JoinDown(left: seq<Blk>, mid: seq<Blk>): seq<Blk>
    requires left != [] && mid != []
  {
    var last := |left| - 1;
    if End(left[last]) == mid[0].a then left[..last] + [Blk(left[last].a, left[last].n + mid[0].n)] + mid[1..]
    else left + mid
  }

  /** The ring with b put after the k-th block. */
  function Insert(ring: seq<Blk>, k: nat, b: Blk): seq<Blk>
    requires k < |ring|
  {
    JoinDown(ring[..k + 1], JoinUp(b, ring[k + 1..]))
  }

  /** b fits between the k-th block and the next one. */
  predicate Between(ring: seq<Blk>, k: nat, b: Blk) {
    && k < |ring| && b.n > 0
    && End(ring[k]) <= b.a && ring[k].a < b.a && (k + 1 < |ring| ==> End(b) <= ring[k + 1].a)
  }

  lemma ChainConcat(s: seq<Blk>, t: seq<Blk>)
    requires Chain(s) && Chain(t) && (s != [] && t != [] ==> End(s[|s| - 1]) < t[0].a)
    ensures Chain(s + t)
  {
    var st := s + t;
    forall i, j | 0 <= i < j < |st| ensures End(st[i]) < st[j].a {
      if i < |s| <= j {
        var last := |s| - 1;
        assert End(s[i]) <= End(s[last]) && t[0].a <= t[j - |s|].a;
      }
    }
  }

  lemma JoinUpChain(b: Blk, rest: seq<Blk>)
    requires Chain(rest) && (rest != [] ==> End(b) <= rest[0].a)
    ensures Chain(JoinUp(b, rest))
  {
    var d := if rest != [] && End(b) == rest[0].a then 1 else 0;
    assert JoinUp(b, rest) == [JoinUp(b, rest)[0]] + rest[d..];
    ChainConcat([JoinUp(b, rest)[0]], rest[d..]);
  }

  lemma JoinDownChain(left: seq<Blk>, mid: seq<Blk>)
    requires left != [] && mid != [] && Chain(left) && Chain(mid) && End(left[|left| - 1]) <= mid[0].a
    ensures Chain(JoinDown(left, mid))
  {
    var last := |left| - 1;
    if End(left[last]) == mid[0].a {
      var r := JoinDown(left, mid);
      assert End(r[last]) == End(mid[0]);
      forall i, j | 0 <= i < j < |r| ensures End(r[i]) < r[j].a {
        JoinedPair(left, mid, i, j);
      }
    } else {
      ChainConcat(left, mid);
    }
  }

  lemma JoinedPair(left: seq<Blk>, mid: seq<Blk>, i: nat, j: nat)
    requires left != [] && mid != [] && Chain(left) && Chain(mid) && End(left[|left| - 1]) == mid[0].a
    requires i < j < |JoinDown(left, mid)|
    ensures End(JoinDown(left, mid)[i]) < JoinDown(left, mid)[j].a
  {
    var last, r := |left| - 1, JoinDown(left, mid);
    assert j > last ==> r[j] == mid[j - last] && End(mid[0]) < mid[j - last].a;
    if i < last {
      assert r[i] == left[i] && End(left[i]) < left[last].a;
    } else if i > last {
      assert r[i] == mid[i - last];
    }
  }

  lemma JoinUpCells(b: Blk, rest: seq<Blk>, x: nat)
    ensures InFree(JoinUp(b, rest), x) <==> InFree(rest, x) || Within(b, x)
  {
    var r := JoinUp(b, rest);
    var d := |rest| + 1 - |r|;
    if i :| 0 <= i < |rest| && Within(rest[i], x) {
      assert if d == 1 && i == 0 then Within(r[0], x) else Within(r[i + 1 - d], x);
    }
    if Within(b, x) { assert Within(r[0], x); }
    if i :| 0 <= i < |r| && Within(r[i], x) {
      if i > 0 { assert r[i] == rest[i - 1 + d]; }
      if i == 0 && d == 1 && !Within(b, x) { assert Within(rest[0], x); }
    }
  }

  lemma JoinDownCells(left: seq<Blk>, mid: seq<Blk>, x: nat)
    requires left != [] && mid != []
    ensures InFree(JoinDown(left, mid), x) <==> InFree(left, x) || InFree(mid, x)
  {
    var r, last := JoinDown(left, mid), |left| - 1;
    var d := |left| + |mid| - |r|;
    if i :| 0 <= i < |left| && Within(left[i], x) {
      assert Within(r[i], x);
    }
    if i :| 0 <= i < |mid| && Within(mid[i], x) {
      assert if d == 1 && i == 0 then Within(r[last], x) else Within(r[|left| + i - d], x);
    }
    if i :| 0 <= i < |r| && Within(r[i], x) {
      if i < last {
        assert Within(left[i], x);
      } else if i == last {
        assert Within(left[last], x) || Within(mid[0], x);
      } else {
        assert r[i] == mid[i - |left| + d];
      }
    }
  }

  predicate Positive(s: seq<Blk>) {
    forall i :: 0 < i < |s| ==> s[i].n > 0
  }

  lemma JoinDownPositive(left: seq<Blk>, mid: seq<Blk>)
    requires left != [] && mid != [] && Positive(left) && Positive(mid) && mid[0].n > 0
    requires |left| == 1 ==> End(left[0]) != mid[0].a
    ensures Positive(JoinDown(left, mid)) && JoinDown(left, mid)[0].a == left[0].a
    ensures left[0].n == 0 ==> JoinDown(left, mid)[0] == left[0]
  {
  }

  /** Freeing keeps the ring sorted and coalesced. */
  lemma InsertBased(ring: seq<Blk>, base: nat, k: nat, b: Blk)
    requires Based(ring, base) && Between(ring, k, b)
    ensures Based(Insert(ring, k, b), base)
  {
    var left, rest := ring[..k + 1], ring[k + 1..];
    var mid := JoinUp(b, rest);
    assert Positive(left) && Positive(mid) && mid[0].n > 0;
    JoinUpChain(b, rest);
    JoinDownChain(left, mid);
    JoinDownPositive(left, mid);
  }

  /** Freeing adds exactly the cells of b. */
  lemma InsertCells(ring: seq<Blk>, k: nat, b: Blk, x: nat)
    requires k < |ring|
    ensures InFree(Insert(ring, k, b), x) <==> InFree(ring, x) || Within(b, x)
  {
    hide InFree;
    var left, rest := ring[..k + 1], ring[k + 1..];
    var mid := JoinUp(b, rest);
    JoinUpCells(b, rest, x);
    JoinDownCells(left, mid, x);
    CellsConcat(left, rest, x);
    assert left + rest == ring;
  }

  lemma CellsConcat(s: seq<Blk>, t: seq<Blk>, x: nat)
    ensures InFree(s + t, x) <==> InFree(s, x) || InFree(t, x)
  {
    if i :| 0 <= i < |s| && Within(s[i], x) { assert Within((s + t)[i], x); }
    if i :| 0 <= i < |t| && Within(t[i], x) { assert Within((s + t)[|s| + i], x); }
    if i :| 0 <= i < |s + t| && Within((s + t)[i], x) {
      assert if i < |s| then Within(s[i], x) else Within(t[i - |s|], x);
    }
  }

  // ----------------------------------------------------------------- allocating

  /** The tail end of the k-th block is handed out: all of it, or what is asked for. */
  function Take(ring: seq<Blk>, k: nat, n: nat): seq<Blk>
    requires 0 < k < |ring| && n <= ring[k].n
  {
    if ring[k].n == n then ring[..k] + ring[k + 1..] else ring[k := Blk(ring[k].a, ring[k].n - n)]
  }

  function Taken(ring: seq<Blk>, k: nat, n: nat): Blk
    requires k < |ring| && n <= ring[k].n
  {
    Blk(ring[k].a + HEADER * (ring[k].n - n), n)
  }

  lemma TakeBased(ring: seq<Blk>, base: nat, k: nat, n: nat)
    requires Based(ring, base) && 0 < k < |ring| && 0 < n <= ring[k].n
    ensures Based(Take(ring, k, n), base)
  {
    var r := Take(ring, k, n);
    if ring[k].n == n {
      forall i, j | 0 <= i < j < |r| ensures End(r[i]) < r[j].a {
        var i', j' := if i < k then i else i + 1, if j < k then j else j + 1;
        assert r[i] == ring[i'] && r[j] == ring[j'];
      }
    } else {
      assert End(r[k]) <= End(ring[k]);
    }
  }

  /** The ring loses exactly the cells of the block handed out. */
  lemma TakeCells(ring: seq<Blk>, k: nat, n: nat, x: nat)
    requires Chain(ring) && 0 < k < |ring| && 0 < n <= ring[k].n
    ensures InFree(ring, x) <==> InFree(Take(ring, k, n), x) || Within(Taken(ring, k, n), x)
    ensures !(InFree(Take(ring, k, n), x) && Within(Taken(ring, k, n), x))
  {
    hide InFree, Chain;
    var left, right, mid := ring[..k], ring[k + 1..], ring[k..k + 1];
    var rest := if ring[k].n == n then [] else [Blk(ring[k].a, ring[k].n - n)];
    assert Take(ring, k, n) == left + rest + right;
    assert ring == left + mid + right;
    CellsConcat(left, mid, x);
    CellsConcat(left + mid, right, x);
    CellsConcat(left, rest, x);
    CellsConcat(left + rest, right, x);
    OneCells(ring[k], mid, x);
    RestCells(ring[k], rest, n, x);
    if Within(ring[k], x) { OtherCells(ring, k, x); }
  }

  lemma RestCells(b: Blk, rest: seq<Blk>, n: nat, x: nat)
    requires n <= b.n && rest == if b.n == n then [] else [Blk(b.a, b.n - n)]
    ensures InFree(rest, x) <==> Within(Blk(b.a, b.n - n), x)
  {
    if rest != [] { OneCells(rest[0], rest, x); }
  }

  lemma OneCells(b: Blk, s: seq<Blk>, x: nat)
    requires s == [b]
    ensures InFree(s, x) <==> Within(b, x)
  {
    if Within(b, x) { assert Within(s[0], x); }
  }

  lemma OtherCells(ring: seq<Blk>, k: nat, x: nat)
    requires Chain(ring) && k < |ring| && Within(ring[k], x)
    ensures !InFree(ring[..k], x) && !InFree(ring[k + 1..], x)
  {
    forall i | 0 <= i < |ring| && i != k ensures !Within(ring[i], x) { }
  }
}
