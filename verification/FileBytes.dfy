/** Blocks and files as byte sequences, shared by both file systems. */
module FileBytes {

  const BSIZE := 512
  const BPB := 4096

  type Byte = bv8

  function ZeroBytes(): (z: seq<Byte>)
    ensures |z| == BSIZE && forall j :: 0 <= j < BSIZE ==> z[j] == 0
  {
    seq(BSIZE, j => 0 as Byte)
  }

  /** The first block boundary at or after size. */
  function Ceil(size: nat): nat {
    (size + BSIZE - 1) / BSIZE * BSIZE
  }

  lemma CeilLeast(size: nat, q: nat)
    ensures Ceil(size) <= q * BSIZE <==> size <= q * BSIZE
  {
    var r := (size + BSIZE - 1) / BSIZE;
    assert (r - 1) * BSIZE < size <= r * BSIZE;
  }

  /** There is no free block: where balloc panics. */
  predicate AllUsed(used: seq<bool>) {
    forall b :: 0 <= b < |used| ==> used[b]
  }

  /** c with s written at offset off. */
  function Splice(c: seq<Byte>, off: nat, s: seq<Byte>): (r: seq<Byte>)
    requires off <= |c|
    ensures |r| == if off + |s| <= |c| then |c| else off + |s|
    ensures forall k :: 0 <= k < |r| ==> r[k] == if off <= k < off + |s| then s[k - off] else c[k]
  {
    c[..off] + s + (if off + |s| <= |c| then c[off + |s|..] else [])
  }

  lemma SpliceNone(c: seq<Byte>, off: nat)
    requires off <= |c|
    ensures Splice(c, off, []) == c
  {
  }

  lemma SpliceSplice(c: seq<Byte>, off: nat, s1: seq<Byte>, s2: seq<Byte>)
    requires off <= |c|
    ensures Splice(Splice(c, off, s1), off + |s1|, s2) == Splice(c, off, s1 + s2)
  {
  }

  /** memmove into a block. */
  function Patch(data: seq<Byte>, j: nat, s: seq<Byte>): (r: seq<Byte>)
    requires j + |s| <= |data|
    ensures |r| == |data|
    ensures forall k :: 0 <= k < |r| ==> r[k] == if j <= k < j + |s| then s[k - j] else data[k]
  {
    data[..j] + s + data[j + |s|..]
  }

  function Min(a: nat, b: nat): nat {
    if a < b then a else b
  }
}
