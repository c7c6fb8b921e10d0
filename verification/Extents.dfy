/** The continuous-sector encoding: an inode's twelve direct entries hold runs of
    blocks, a 24-bit first block and an 8-bit length each.  A file is a plain
    sequence of blocks; the runs are its greedy run-length packing. */
module Extents {

  const NDIRECT := 12
  const CS_MAX_LENGTH := 255
  const MAX_BLOCK := 0xFFFFFF
  const MAXCSBLOCKS := 3060

  datatype Run = Run(start: nat, len: nat)

  function Expand(r: Run): (s: seq<nat>)
    ensures |s| == r.len && forall i :: 0 <= i < r.len ==> s[i] == r.start + i
    decreases r.len
  {
    if r.len == 0 then [] else Expand(Run(r.start, r.len - 1)) + [r.start + r.len - 1]
  }

  /** The block sequence a list of runs stands for. */
  function Decode(runs: seq<Run>): seq<nat> {
    if runs == [] then [] else Decode(runs[..|runs| - 1]) + Expand(runs[|runs| - 1])
  }

  /** One appended block: lengthen the last run if the block follows it and there is
      room, otherwise begin a run. */
  function Append(runs: seq<Run>, b: nat): seq<Run> {
    var n := |runs| - 1;
    if 0 <= n && runs[n].len < CS_MAX_LENGTH && b == runs[n].start + runs[n].len
    then runs[n := Run(runs[n].start, runs[n].len + 1)]
    else runs + [Run(b, 1)]
  }

  function Pack(blocks: seq<nat>): seq<Run> {
    if blocks == [] then [] else Append(Pack(blocks[..|blocks| - 1]), blocks[|blocks| - 1])
  }

  predicate RunsOk(runs: seq<Run>) {
    forall i :: 0 <= i < |runs| ==> 1 <= runs[i].len <= CS_MAX_LENGTH
  }

  lemma DecodeSnoc(runs: seq<Run>, r: Run)
    ensures Decode(runs + [r]) == Decode(runs) + Expand(r)
  {
    assert (runs + [r])[..|runs|] == runs;
  }

  /** Lengthening the last run appends its next block. */
  lemma LengthenDecodes(runs: seq<Run>)
    requires runs != []
    ensures var n := |runs| - 1; var r := runs[n];
            Decode(runs[n := Run(r.start, r.len + 1)]) == Decode(runs) + [r.start + r.len]
  {
    var n := |runs| - 1;
    var r := runs[n];
    var r' := Run(r.start, r.len + 1);
    assert runs[n := r'] == runs[..n] + [r'];
    DecodeSnoc(runs[..n], r');
    Assoc(Decode(runs[..n]), Expand(r), [r.start + r.len]);
  }

  lemma Assoc(a: seq<nat>, b: seq<nat>, c: seq<nat>)
    ensures a + (b + c) == a + b + c
  {
  }

  lemma AppendDecodes(runs: seq<Run>, b: nat)
    requires RunsOk(runs)
    ensures RunsOk(Append(runs, b))
    ensures Decode(Append(runs, b)) == Decode(runs) + [b]
  {
    hide Decode, Expand;
    var n := |runs| - 1;
    if 0 <= n && runs[n].len < CS_MAX_LENGTH && b == runs[n].start + runs[n].len {
      LengthenDecodes(runs);
    } else {
      DecodeSnoc(runs, Run(b, 1));
      ExpandOne(Run(b, 1));
    }
  }

  /** Packing is a faithful encoding. */
  lemma {:induction false} PackDecodes(blocks: seq<nat>)
    ensures RunsOk(Pack(blocks)) && Decode(Pack(blocks)) == blocks
  {
    if blocks != [] {
      var rest, b := blocks[..|blocks| - 1], blocks[|blocks| - 1];
      PackDecodes(rest);
      PackStep(Pack(rest), rest, b, blocks);
      assert Pack(blocks) == Append(Pack(rest), b);
    }
  }

  lemma PackStep(p: seq<Run>, rest: seq<nat>, b: nat, blocks: seq<nat>)
    requires RunsOk(p) && Decode(p) == rest && blocks != [] && rest == blocks[..|blocks| - 1] && b == blocks[|blocks| - 1]
    ensures RunsOk(Append(p, b)) && Decode(Append(p, b)) == blocks
  {
    hide Decode, Append, RunsOk;
    AppendDecodes(p, b);
    assert blocks == rest + [b];
  }

  // ----------------------------------------------------------------- optimality

  function LastLen(runs: seq<Run>): nat {
    if runs == [] then 0 else runs[|runs| - 1].len
  }

  /** Compare two encodings by the number of runs, then by the length of the last run. */
  predicate NoWorse(a: seq<Run>, b: seq<Run>) {
    |a| < |b| || (|a| == |b| && LastLen(a) <= LastLen(b))
  }

  /** An encoding of the sequence without its last block. */
  function Chop(runs: seq<Run>): seq<Run>
    requires runs != []
  {
    var n := |runs| - 1;
    if runs[n].len <= 1 then runs[..n] else runs[n := Run(runs[n].start, runs[n].len - 1)]
  }

  lemma ChopDecodes(runs: seq<Run>)
    requires runs != [] && RunsOk(runs)
    ensures var r := runs[|runs| - 1]; Decode(runs) == Decode(Chop(runs)) + [r.start + r.len - 1]
  {
    var n := |runs| - 1;
    var r := runs[n];
    if r.len > 1 {
      ChopLong(runs, Chop(runs), n, r);
    } else {
      ExpandOne(r);
    }
  }

  lemma ExpandOne(r: Run)
    requires r.len == 1
    ensures Expand(r) == [r.start]
  {
  }

  lemma ChopLong(runs: seq<Run>, c: seq<Run>, n: nat, r: Run)
    requires n + 1 == |runs| && r == runs[n] && r.len > 1 && c == runs[n := Run(r.start, r.len - 1)]
    ensures Decode(runs) == Decode(c) + [r.start + r.len - 1]
  {
    LengthenDecodes(c);
    assert c[n := Run(c[n].start, c[n].len + 1)] == runs;
  }

  lemma LastBlock(runs: seq<Run>)
    requires runs != [] && RunsOk(runs)
    ensures Decode(runs) != []
    ensures var r := runs[|runs| - 1]; Decode(runs)[|Decode(runs)| - 1] == r.start + r.len - 1
  {
    ChopDecodes(runs);
  }

  /** Greedy packing is optimal: no other list of runs of length at most 255 that
      stands for the same blocks has fewer entries. */
  lemma {:induction false} PackOptimal(blocks: seq<nat>, runs: seq<Run>)
    requires RunsOk(runs) && Decode(runs) == blocks
    ensures |Pack(blocks)| <= |runs|
    ensures NoWorse(Pack(blocks), runs)
    decreases |blocks|
  {
    if runs == [] {
      assert blocks == [];
    } else {
      ChopDecodes(runs);
      var n := |blocks| - 1;
      assert RunsOk(Chop(runs));
      assert blocks[..n] == Decode(Chop(runs));
      PackOptimal(blocks[..n], Chop(runs));
      PackDecodes(blocks[..n]);
      OneMore(Pack(blocks[..n]), runs, blocks[n]);
    }
  }

  /** The inductive step: greedy takes one more block without falling behind. */
  lemma OneMore(p: seq<Run>, runs: seq<Run>, b: nat)
    requires RunsOk(p) && RunsOk(runs) && runs != []
    requires NoWorse(p, Chop(runs)) && Decode(p) == Decode(Chop(runs))
    requires b == runs[|runs| - 1].start + runs[|runs| - 1].len - 1
    ensures NoWorse(Append(p, b), runs)
  {
    var r := runs[|runs| - 1];
    if r.len > 1 {
      LastBlock(Chop(runs));
      assert p != [];
      LastBlock(p);
    }
  }

  // ----------------------------------------------------------------- inode entries

  function Encode(r: Run): nat {
    r.start * 256 + r.len
  }

  function RunOf(entry: nat): Run {
    Run(entry / 256, entry % 256)
  }

  lemma EncodeRoundTrip(r: Run)
    requires 1 <= r.len <= CS_MAX_LENGTH
    ensures RunOf(Encode(r)) == r && Encode(r) != 0
    ensures r.start <= MAX_BLOCK ==> Encode(r) < 0x1_0000_0000
  {
  }

  function FirstZero(s: seq<nat>): (k: nat)
    ensures k <= |s| && (forall j :: 0 <= j < k ==> s[j] != 0) && (k < |s| ==> s[k] == 0)
  {
    if s == [] || s[0] == 0 then 0 else 1 + FirstZero(s[1..])
  }

  /** The number of entries before the first zero one. */
  function Count(addrs: seq<nat>): (k: nat)
    requires NDIRECT <= |addrs|
    ensures k <= NDIRECT && (forall j :: 0 <= j < k ==> addrs[j] != 0) && (k < NDIRECT ==> addrs[k] == 0)
  {
    FirstZero(addrs[..NDIRECT])
  }

  function RunsUpTo(addrs: seq<nat>, k: nat): (runs: seq<Run>)
    requires k <= |addrs|
    ensures |runs| == k && forall i :: 0 <= i < k ==> runs[i] == RunOf(addrs[i])
  {
    if k == 0 then [] else RunsUpTo(addrs, k - 1) + [RunOf(addrs[k - 1])]
  }

  function RunsOf(addrs: seq<nat>): seq<Run>
    requires NDIRECT <= |addrs|
  {
    RunsUpTo(addrs, Count(addrs))
  }

  /** The blocks of a CS inode, in file order. */
  function BlocksOf(addrs: seq<nat>): seq<nat>
    requires NDIRECT <= |addrs|
  {
    Decode(RunsOf(addrs))
  }

  lemma CountIs(addrs: seq<nat>, k: nat)
    requires k <= NDIRECT <= |addrs|
    requires forall j :: 0 <= j < k ==> addrs[j] != 0
    requires k < NDIRECT ==> addrs[k] == 0
    ensures Count(addrs) == k
  {
  }

  /** Changing entry k - 1, or filling entry k, changes the run list by that entry. */
  lemma RunsUpdate(addrs: seq<nat>, k: nat, r: Run)
    requires |addrs| == NDIRECT + 1 && 1 <= k <= NDIRECT && 1 <= r.len <= CS_MAX_LENGTH
    requires forall j :: 0 <= j < k - 1 ==> addrs[j] != 0
    requires forall j :: k <= j < NDIRECT ==> addrs[j] == 0
    ensures RunsOf(addrs[k - 1 := Encode(r)]) == RunsUpTo(addrs, k - 1) + [r]
  {
    var addrs': seq<nat> := addrs[k - 1 := Encode(r)];
    EncodeRoundTrip(r);
    CountIs(addrs', k);
    assert RunsUpTo(addrs', k) == RunsUpTo(addrs, k - 1) + [r];
  }

  lemma {:induction false} DecodeLength(runs: seq<Run>)
    requires RunsOk(runs)
    ensures |runs| <= |Decode(runs)| <= CS_MAX_LENGTH * |runs|
  {
    if runs != [] { DecodeLength(runs[..|runs| - 1]); }
  }

  /** Block bn of the sequence, found in run i after `total` blocks in earlier runs. */
  lemma {:induction false} DecodeAt(runs: seq<Run>, i: nat, bn: nat)
    requires i < |runs| && |Decode(runs[..i])| <= bn < |Decode(runs[..i])| + runs[i].len
    ensures bn < |Decode(runs)| && Decode(runs)[bn] == runs[i].start + (bn - |Decode(runs[..i])|)
    decreases |runs|
  {
    var n := |runs| - 1;
    if i < n {
      assert runs[..n][..i] == runs[..i];
      DecodeAt(runs[..n], i, bn);
    }
  }
}
