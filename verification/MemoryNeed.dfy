/** How many free pages the memory calls need at most. */
module MemoryNeed {
  import opened Common
  import opened PageTables
  import opened UserView

  /** A call took at most k pages off the free list, and kalloc failed in it only if there were
      fewer. */
  predicate Spends(before: nat, after: nat, was: nat, now: nat, k: nat) {
    after + k >= before && was <= now && (now > was ==> before < k)
  }

  /** kalloc failed exactly if the call did. */
  predicate Counts(was: nat, now: nat, failed: bool) {
    was <= now && (now > was <==> failed)
  }

  /** Two pages for each page that allocuvm adds: itself, and perhaps its page table. */
  function GrowNeed(oldsz: nat, newsz: nat): nat {
    if oldsz <= newsz < KERNBASE then 2 * (PageUp(newsz) - PageUp(oldsz)) else 0
  }

  /** At most a page table for each page that reservessuvm adds. */
  function ReserveNeed(oldsz: nat, newsz: nat): nat {
    if oldsz <= newsz < KERNBASE then PageUp(newsz) - PageUp(oldsz) else 0
  }

  /** A directory and the kernel's page tables. */
  const KERNELPAGES := 65

  /** Kernel slots below d. */
  function Slots(d: nat): nat {
    if d <= 512 then 0 else if d < 568 then d - 512 else if d <= 1016 then 56 else if d < 1024 then 56 + (d - 1016) else 64
  }

  /** How many pages len bytes at va lie in. */
  function Touches(va: nat, len: nat): nat {
    Pieces(PGSIZE, va, len)
  }

  lemma TouchesNone(va: nat)
    ensures Touches(va, 0) == 0
  {
  }

  lemma TouchesMore(va: nat, done: nat, n: nat, len: nat)
    requires done + n <= len && 0 < n && (done == 0 || (va + done) % PGSIZE == 0)
    ensures Touches(va, done) + 1 <= Touches(va, done + n) <= Touches(va, len)
    ensures n == Chunk(va + done, len - done) ==> Touches(va, done + n) == Touches(va, done) + 1
    ensures n == Chunk(va + done, len - done) ==> done + n == len || (va + done + n) % PGSIZE == 0
  {
  }
}
