/** bio.c: the buffer cache as a class whose methods are its atomic steps.  What holds after
    every step holds in every interleaving of the processes that take them.

    bcache.lock makes the list work of bget and brelse atomic; a buffer's own lock says who
    may touch its data.  Claims about contents are for devices other than 0, since all buffers
    start as block 0 of device 0. */
module BufferCache {
  import opened Common
  import opened LruList

  type Data = seq<bv8>

  datatype Key = Key(dev: nat, blockno: nat)

  /** flags & B_VALID, flags & B_DIRTY, and whether some process holds the sleep-lock. */
  datatype Buf = Buf(key: Key, valid: bool, dirty: bool, refcnt: nat, locked: bool, data: Data)

  function OnDisk(disk: map<Key, Data>, key: Key): Data {
    if key in disk then disk[key] else []
  }

  /** The disk overlaid with the writes that were logged but are not installed yet. */
  function Current(disk: map<Key, Data>, pending: map<Key, Data>, key: Key): Data {
    if key in pending then pending[key] else OnDisk(disk, key)
  }

  predicate Unique(bufs: seq<Buf>) {
    forall i, j :: 0 <= i < |bufs| && 0 <= j < |bufs| && bufs[i].key == bufs[j].key && bufs[i].key.dev != 0 ==> i == j
  }

  /** A buffer is dirty exactly as long as its block has a pending write, and when nobody is
      working on it, it holds what its block currently is. */
  predicate BufOk(b: Buf, disk: map<Key, Data>, pending: map<Key, Data>) {
    && (b.locked ==> b.refcnt > 0) && (b.dirty ==> b.valid)
    && (b.key.dev != 0 ==>
          && (b.dirty <==> b.key in pending)
          && (b.valid && !b.locked ==> b.data == Current(disk, pending, b.key)))
  }

  predicate Cached(bufs: seq<Buf>, key: Key) {
    exists i :: 0 <= i < |bufs| && bufs[i].key == key
  }

  ghost predicate Coherent(bufs: seq<Buf>, disk: map<Key, Data>, pending: map<Key, Data>) {
    && Unique(bufs)
    && (forall i :: 0 <= i < |bufs| ==> BufOk(bufs[i], disk, pending))
    && (forall key :: key in pending ==> key.dev != 0 && Cached(bufs, key))
  }

  predicate Reusable(b: Buf) {
    b.refcnt == 0 && !b.dirty
  }

  /** A buffer keeps its block and changes; the rest of the world changes only at that block. */
  lemma ChangeCoherent(bufs: seq<Buf>, disk: map<Key, Data>, pending: map<Key, Data>, i: nat, b: Buf,
                       disk': map<Key, Data>, pending': map<Key, Data>)
    requires Coherent(bufs, disk, pending) && i < |bufs| && b.key == bufs[i].key && BufOk(b, disk', pending')
    requires forall key :: key != b.key && key.dev != 0 ==> OnDisk(disk', key) == OnDisk(disk, key)
    requires forall key :: key != b.key ==> (key in pending' <==> key in pending) && (key in pending ==> pending'[key] == pending[key])
    requires b.key in pending' ==> b.key.dev != 0
    ensures Coherent(bufs[i := b], disk', pending')
  {
    var bufs' := bufs[i := b];
    forall key | key in pending' ensures key.dev != 0 && Cached(bufs', key) {
      if key == b.key {
        assert bufs'[i].key == key;
      } else {
        var j :| 0 <= j < |bufs| && bufs[j].key == key;
        assert bufs'[j].key == key;
      }
    }
    forall j | 0 <= j < |bufs'| ensures BufOk(bufs'[j], disk', pending') {
      if j != i && bufs[j].key.dev != 0 {
        assert bufs[j].key != b.key && BufOk(bufs[j], disk, pending);
      }
    }
  }

  /** A buffer that nobody refers to and that owes the disk nothing takes over another block. */
  lemma RecycleCoherent(bufs: seq<Buf>, disk: map<Key, Data>, pending: map<Key, Data>, i: nat, key: Key)
    requires Coherent(bufs, disk, pending) && i < |bufs| && Reusable(bufs[i]) && !Cached(bufs, key)
    ensures Coherent(bufs[i := Buf(key, false, false, 1, false, bufs[i].data)], disk, pending)
  {
    var b := Buf(key, false, false, 1, false, bufs[i].data);
    var bufs' := bufs[i := b];
    assert BufOk(bufs[i], disk, pending);
    forall k | k in pending ensures k.dev != 0 && Cached(bufs', k) {
      var j :| 0 <= j < |bufs| && bufs[j].key == k;
      assert j != i && bufs'[j].key == k;
    }
  }

  class Cache {
    const n: nat
    var bufs: seq<Buf>
    /** The links of the buffers; the list head is number n. */
    var next: seq<nat>
    var prev: seq<nat>
    var disk: map<Key, Data>
    ghost var ring: seq<nat>
    /** When each buffer was last given up by its last user, or first listed. */
    ghost var freed: seq<nat>
    ghost var clock: nat
    ghost var pending: map<Key, Data>

    /** The list is a circular permutation of all buffers that starts at the head. */
    ghost predicate Listed()
      reads this
    {
      && |bufs| == n && |next| == n + 1 && |prev| == n + 1
      && Circular(ring, next, prev) && |ring| == n + 1 && ring[0] == n
      && (forall i :: 0 <= i < |ring| ==> ring[i] <= n)
      && (forall b :: 0 <= b <= n ==> b in ring)
      && |freed| == n && Recent(ring, freed, clock)
    }

    ghost predicate Valid()
      reads this
    {
      Listed() && Coherent(bufs, disk, pending)
    }

    /** binit: the buffers go to the front one after the other. */
    constructor (n: nat, disk: map<Key, Data>)
      ensures Valid() && this.n == n && this.disk == disk && pending == map[]
      ensures forall b :: 0 <= b < n ==> bufs[b] == Buf(Key(0, 0), false, false, 0, false, [])
    {
      hide Recent, Circular;
      this.n := n;
      this.disk := disk;
      bufs := seq(n, i => Buf(Key(0, 0), false, false, 0, false, []));
      next, prev := seq(n + 1, i => n), seq(n + 1, i => n);
      ring, pending, freed, clock := [n], map[], seq(n, i => 0), 0;
      new;
      OneNode(n, next, prev);
      NoneRecent(n, freed);
      var b := 0;
      while b < n
        invariant 0 <= b <= n && |next| == n + 1 && |prev| == n + 1
        invariant Circular(ring, next, prev) && |ring| == b + 1 && ring[0] == n
        invariant forall i :: 0 <= i < |ring| ==> ring[i] == n || ring[i] < b
        invariant n in ring && forall c :: 0 <= c < b ==> c in ring
        invariant |freed| == n && clock == b && Recent(ring, freed, clock)
        invariant bufs == seq(n, i => Buf(Key(0, 0), false, false, 0, false, [])) && pending == map[] && this.disk == disk
      {
        Ring(ring, next, prev);
        FrontMembers(ring, b);
        FrontRecent(ring, freed, clock, b);
        PushFront(b);
        freed, clock := freed[b := clock], clock + 1;
        b := b + 1;
      }
    }

    /** A buffer that is not in the list becomes its first. */
    method PushFront(b: nat)
      requires |next| == n + 1 && |prev| == n + 1 && Circular(ring, next, prev) && ring[0] == n && b < n && b !in ring
      modifies this`next, this`prev, this`ring
      ensures |next| == n + 1 && |prev| == n + 1 && Circular(ring, next, prev) && ring == Front(old(ring), b)
    {
      FrontCircular(ring, next, prev, b);
      next := next[b := next[n]];
      prev := prev[b := n];
      prev := prev[next[n] := b];
      next := next[n := b];
      ring := Front(ring, b);
    }

    /** The first loop of bget: the cached buffer, or n. */
    method Lookup(key: Key) returns (b: nat)
      requires Valid()
      ensures b <= n && (b < n ==> bufs[b].key == key) && (b == n ==> !Cached(bufs, key))
    {
      ghost var i: nat := Succ(ring, 0);
      Links(ring, next, prev, 0);
      b := next[n];
      while b != n
        invariant i < |ring| && b == ring[i]
        invariant forall j :: 0 < j < (if i == 0 then |ring| else i) ==> bufs[ring[j]].key != key
        decreases if i == 0 then 0 else |ring| - i
      {
        if bufs[b].key == key { return b; }
        Links(ring, next, prev, i);
        b := next[b];
        i := Succ(ring, i);
      }
      forall c | 0 <= c < |bufs| ensures bufs[c].key != key {
        assert c in ring;
      }
    }

    /** The second loop of bget: the least recently used buffer that can be recycled, or n. */
    method Victim() returns (b: nat)
      requires Valid()
      ensures b <= n
      ensures b < n ==> Reusable(bufs[b])
                        && exists k :: 0 < k < |ring| && ring[k] == b && forall j :: k < j < |ring| ==> !Reusable(bufs[ring[j]])
      ensures b < n ==> forall c :: 0 <= c < n && Reusable(bufs[c]) ==> freed[b] <= freed[c]
      ensures b == n ==> forall c :: 0 <= c < n ==> !Reusable(bufs[c])
    {
      ghost var i: nat := Pred(ring, 0);
      Links(ring, next, prev, 0);
      b := prev[n];
      while b != n
        invariant i < |ring| && b == ring[i]
        invariant forall j :: i < j < |ring| ==> !Reusable(bufs[ring[j]])
        decreases i
      {
        assert i > 0;
        if bufs[b].refcnt == 0 && !bufs[b].dirty {
          forall c | 0 <= c < n && Reusable(bufs[c]) ensures freed[b] <= freed[c] {
            assert c in ring;
          }
          return b;
        }
        Links(ring, next, prev, i);
        b := prev[b];
        i := Pred(ring, i);
      }
      forall c | 0 <= c < n ensures !Reusable(bufs[c]) {
        assert c in ring;
      }
    }

    /** bget up to the release of bcache.lock: one more reference to the buffer that has the
        block; or the least recently used buffer that is neither referenced nor dirty takes the
        block over; or, with n, the panic. */
    method Bget(dev: nat, blockno: nat) returns (b: nat)
      requires Valid()
      modifies this`bufs
      ensures Valid() && b <= n
      ensures Cached(old(bufs), Key(dev, blockno)) ==>
                b < n && old(bufs)[b].key == Key(dev, blockno) && bufs == old(bufs)[b := old(bufs)[b].(refcnt := old(bufs)[b].refcnt + 1)]
      ensures !Cached(old(bufs), Key(dev, blockno)) && b < n ==>
                && Reusable(old(bufs)[b]) && bufs == old(bufs)[b := Buf(Key(dev, blockno), false, false, 1, false, old(bufs)[b].data)]
                && exists k :: 0 < k < |ring| && ring[k] == b && forall j :: k < j < |ring| ==> !Reusable(old(bufs)[ring[j]])
      ensures !Cached(old(bufs), Key(dev, blockno)) && b < n ==> forall c :: 0 <= c < n && Reusable(old(bufs)[c]) ==> freed[b] <= freed[c]
      ensures b == n ==> bufs == old(bufs) && forall c :: 0 <= c < n ==> !Reusable(bufs[c])
    {
      b := Lookup(Key(dev, blockno));
      if b < n {
        ghost var was := bufs;
        bufs := bufs[b := bufs[b].(refcnt := bufs[b].refcnt + 1)];
        ChangeCoherent(was, disk, pending, b, bufs[b], disk, pending);
        return b;
      }
      b := Victim();
      if b < n {
        RecycleCoherent(bufs, disk, pending, b, Key(dev, blockno));
        bufs := bufs[b := Buf(Key(dev, blockno), false, false, 1, false, bufs[b].data)];
      }
    }

    /** acquiresleep. */
    method Lock(b: nat)
      requires Valid() && b < n && bufs[b].refcnt > 0 && !bufs[b].locked
      modifies this`bufs
      ensures Valid() && bufs == old(bufs)[b := old(bufs)[b].(locked := true)]
      ensures bufs[b].key.dev != 0 && bufs[b].valid ==> bufs[b].data == Current(disk, pending, bufs[b].key)
    {
      ghost var was := bufs;
      assert BufOk(bufs[b], disk, pending);
      bufs := bufs[b := bufs[b].(locked := true)];
      ChangeCoherent(was, disk, pending, b, bufs[b], disk, pending);
    }

    /** The rest of bread once the lock is held: an invalid buffer is read from the disk. */
    method Fill(b: nat)
      requires Valid() && b < n && bufs[b].locked
      requires bufs[b].valid && bufs[b].key.dev != 0 ==> bufs[b].data == Current(disk, pending, bufs[b].key)
      modifies this`bufs
      ensures Valid() && bufs == old(bufs)[b := old(bufs)[b].(valid := true, data := bufs[b].data)]
      ensures bufs[b].key.dev != 0 ==> bufs[b].data == Current(disk, pending, bufs[b].key)
    {
      if !bufs[b].valid {
        ghost var was := bufs;
        assert BufOk(bufs[b], disk, pending);
        bufs := bufs[b := bufs[b].(valid := true, data := OnDisk(disk, bufs[b].key))];
        ChangeCoherent(was, disk, pending, b, bufs[b], disk, pending);
      }
    }

    /** The holder of a buffer changes its data. */
    method Modify(b: nat, data: Data)
      requires Valid() && b < n && bufs[b].locked && bufs[b].valid
      modifies this`bufs
      ensures Valid() && bufs == old(bufs)[b := old(bufs)[b].(data := data)]
    {
      ghost var was := bufs;
      assert BufOk(bufs[b], disk, pending);
      bufs := bufs[b := bufs[b].(data := data)];
      ChangeCoherent(was, disk, pending, b, bufs[b], disk, pending);
    }

    /** log_write's B_DIRTY: what the buffer holds is now a pending write of its block. */
    method MarkDirty(b: nat)
      requires Valid() && b < n && bufs[b].locked && bufs[b].valid && bufs[b].key.dev != 0
      modifies this`bufs, this`pending
      ensures Valid() && bufs == old(bufs)[b := old(bufs)[b].(dirty := true)]
      ensures pending == old(pending)[bufs[b].key := bufs[b].data]
    {
      ghost var was, waiting := bufs, pending;
      bufs := bufs[b := bufs[b].(dirty := true)];
      pending := pending[bufs[b].key := bufs[b].data];
      ChangeCoherent(was, disk, waiting, b, bufs[b], disk, pending);
    }

    /** bwrite: the buffer goes to the disk and its block has no pending write any more. */
    method Bwrite(b: nat)
      requires Valid() && b < n && bufs[b].locked
      modifies this`bufs, this`disk, this`pending
      ensures Valid() && bufs == old(bufs)[b := old(bufs)[b].(valid := true, dirty := false)]
      ensures disk == old(disk)[bufs[b].key := bufs[b].data] && pending == old(pending) - {bufs[b].key}
    {
      ghost var was, before, waiting := bufs, disk, pending;
      assert BufOk(bufs[b], disk, pending);
      disk := disk[bufs[b].key := bufs[b].data];
      bufs := bufs[b := bufs[b].(valid := true, dirty := false)];
      pending := pending - {bufs[b].key};
      ChangeCoherent(was, before, waiting, b, bufs[b], disk, pending);
    }

    /** bread: a locked buffer with what the block currently is, whatever was cached, recycled
        or pending before.  If another process is working on the buffer, the caller has its
        reference and waits; it goes on with Lock and Fill when the buffer is released. */
    method Bread(dev: nat, blockno: nat) returns (b: nat, waits: bool)
      requires Valid()
      modifies this`bufs
      ensures Valid() && b <= n && (waits ==> b < n)
      ensures b < n ==> bufs[b].key == Key(dev, blockno) && bufs[b].locked && bufs[b].refcnt > 0
      ensures b < n && !waits ==> bufs[b].valid && (dev != 0 ==> bufs[b].data == Current(disk, pending, Key(dev, blockno)))
      ensures waits ==> old(bufs)[b].locked && bufs[b] == old(bufs)[b].(refcnt := old(bufs)[b].refcnt + 1)
      ensures b < n && old(bufs)[b].locked && old(bufs)[b].key == Key(dev, blockno) ==> waits
      ensures Cached(old(bufs), Key(dev, blockno)) ==> b < n && old(bufs)[b].key == Key(dev, blockno)
      ensures b < n && !waits && dev != 0 ==>
                var key := Key(dev, blockno);
                (key in pending ==> bufs[b].data == pending[key]) && (key !in pending && key in disk ==> bufs[b].data == disk[key])
      ensures !Cached(old(bufs), Key(dev, blockno)) && b < n ==>
                Reusable(old(bufs)[b]) && forall c :: 0 <= c < n && Reusable(old(bufs)[c]) ==> freed[b] <= freed[c]
      ensures forall i :: 0 <= i < n && i != b ==> bufs[i] == old(bufs)[i]
      ensures b == n ==> bufs == old(bufs) && forall c :: 0 <= c < n ==> !Reusable(bufs[c])
    {
      b := Bget(dev, blockno);
      waits := b < n && bufs[b].locked;
      if b < n && !waits {
        Lock(b);
        Fill(b);
      }
    }

    /** releasesleep: whoever changed the data has logged or written it. */
    method Unlock(b: nat)
      requires Valid() && b < n && bufs[b].locked
      requires bufs[b].valid && bufs[b].key.dev != 0 ==> bufs[b].data == Current(disk, pending, bufs[b].key)
      modifies this`bufs
      ensures Valid() && bufs == old(bufs)[b := old(bufs)[b].(locked := false)]
    {
      ghost var was := bufs;
      assert BufOk(bufs[b], disk, pending);
      bufs := bufs[b := bufs[b].(locked := false)];
      ChangeCoherent(was, disk, pending, b, bufs[b], disk, pending);
    }

    /** The rest of brelse: the last reference moves the buffer to the front of the list. */
    method Deref(b: nat)
      requires Valid() && b < n && bufs[b].refcnt > 0 && (bufs[b].locked ==> bufs[b].refcnt > 1)
      modifies this`bufs, this`next, this`prev, this`ring, this`freed, this`clock
      ensures Valid() && bufs == old(bufs)[b := old(bufs)[b].(refcnt := old(bufs)[b].refcnt - 1)]
      ensures bufs[b].refcnt > 0 ==> ring == old(ring) && freed == old(freed) && clock == old(clock)
      ensures bufs[b].refcnt == 0 ==> freed == old(freed)[b := old(clock)] && clock == old(clock) + 1
      ensures bufs[b].refcnt == 0 ==> exists k :: 0 < k < |old(ring)| && old(ring)[k] == b && ring == Front(Without(old(ring), k), b)
    {
      ghost var was := bufs;
      assert BufOk(bufs[b], disk, pending);
      bufs := bufs[b := bufs[b].(refcnt := bufs[b].refcnt - 1)];
      ChangeCoherent(was, disk, pending, b, bufs[b], disk, pending);
      if bufs[b].refcnt == 0 {
        MoveToFront(b);
      }
    }

    method MoveToFront(b: nat)
      requires Listed() && b < n
      modifies this`next, this`prev, this`ring, this`freed, this`clock
      ensures Listed() && freed == old(freed)[b := old(clock)] && clock == old(clock) + 1
      ensures exists k :: 0 < k < |old(ring)| && old(ring)[k] == b && ring == Front(Without(old(ring), k), b)
    {
      hide Recent, Circular;
      assert b in ring;
      ghost var k :| 0 <= k < |ring| && ring[k] == b;
      Unlink(b, k);
      ghost var out := ring;
      FrontMembers(out, b);
      WithoutRecent(old(ring), freed, clock, k);
      FrontRecent(out, freed, clock, b);
      PushFront(b);
      freed, clock := freed[b := clock], clock + 1;
    }

    /** A buffer leaves the list. */
    method Unlink(b: nat, ghost k: nat)
      requires Listed() && b < n && k < |ring| && ring[k] == b
      modifies this`next, this`prev, this`ring
      ensures k > 0 && |next| == n + 1 && |prev| == n + 1 && Circular(ring, next, prev) && ring == Without(old(ring), k)
      ensures ring[0] == n && |ring| == n && forall x :: x in ring <==> x in old(ring) && x != b
    {
      hide Recent;
      Links(ring, next, prev, k);
      UnlinkCircular(ring, next, prev, k);
      WithoutMembers(ring, k);
      ghost var next0, prev0 := next, prev;
      prev := prev[next[b] := prev[b]];
      next := next[prev[b] := next[b]];
      assert prev == prev0[next0[b] := prev0[b]] && next == next0[prev0[b] := next0[b]];
      ring := Without(ring, k);
    }
  }

  lemma Ring(ring: seq<nat>, next: seq<nat>, prev: seq<nat>)
    requires Circular(ring, next, prev)
    ensures ring != [] && Distinct(ring)
  {
  }

  lemma OneNode(n: nat, next: seq<nat>, prev: seq<nat>)
    requires n < |next| == |prev| && next[n] == n && prev[n] == n
    ensures Circular([n], next, prev)
  {
    assert LinkAt([n], next, prev, 0);
  }

  lemma NoneRecent(n: nat, freed: seq<nat>)
    ensures Recent([n], freed, 0)
  {
  }

  lemma WithoutMembers(ring: seq<nat>, k: nat)
    requires Distinct(ring) && k < |ring|
    ensures forall x :: x in Without(ring, k) <==> x in ring && x != ring[k]
  {
    var r := Without(ring, k);
    forall i | 0 <= i < |ring| && i != k ensures ring[i] in r {
      assert ring[i] == if i < k then r[i] else r[i - 1];
    }
    forall i | 0 <= i < |r| ensures r[i] in ring && r[i] != ring[k] {
      assert r[i] == ring[if i < k then i else i + 1];
    }
  }

  lemma FrontMembers(ring: seq<nat>, b: nat)
    requires ring != []
    ensures forall x :: x in Front(ring, b) <==> x in ring || x == b
  {
    var r := Front(ring, b);
    assert r[0] == ring[0] && r[1] == b;
    forall i | 0 < i < |ring| ensures r[i + 1] == ring[i] { }
    forall x | x in ring ensures x in r {
      var i :| 0 <= i < |ring| && ring[i] == x;
      assert x == if i == 0 then r[0] else r[i + 1];
    }
  }
}
