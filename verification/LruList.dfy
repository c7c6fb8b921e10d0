/** The circular doubly linked list of bio.c: nodes are numbers, the links two tables.  Its
    value is a ring, the sequence of nodes met from the head on. */
module LruList {

  import opened Common

  function Succ(ring: seq<nat>, i: nat): nat {
    if i + 1 < |ring| then i + 1 else 0
  }

  predicate LinkAt(ring: seq<nat>, next: seq<nat>, prev: seq<nat>, i: nat)
    requires i < |ring|
  {
    && ring[i] < |next| && ring[Succ(ring, i)] < |prev|
    && next[ring[i]] == ring[Succ(ring, i)] && prev[ring[Succ(ring, i)]] == ring[i]
  }

  /** Following next from any node of the ring goes round it, and prev goes back. */
  ghost predicate Circular(ring: seq<nat>, next: seq<nat>, prev: seq<nat>) {
    && ring != [] && Distinct(ring) && |next| == |prev|
    && forall i :: 0 <= i < |ring| ==> LinkAt(ring, next, prev, i)
  }

  function Pred(ring: seq<nat>, i: nat): nat
    requires i < |ring|
  {
    if i > 0 then i - 1 else |ring| - 1
  }

  lemma Links(ring: seq<nat>, next: seq<nat>, prev: seq<nat>, i: nat)
    requires Circular(ring, next, prev) && i < |ring|
    ensures ring[i] < |next| && next[ring[i]] == ring[Succ(ring, i)] && prev[ring[i]] == ring[Pred(ring, i)]
  {
    assert LinkAt(ring, next, prev, i) && LinkAt(ring, next, prev, Pred(ring, i));
  }

  // ----------------------------------------------------------------- taking a node out

  function Without(ring: seq<nat>, k: nat): seq<nat>
    requires k < |ring|
  {
    ring[..k] + ring[k + 1..]
  }

  lemma UnlinkCircular(ring: seq<nat>, next: seq<nat>, prev: seq<nat>, k: nat)
    requires Circular(ring, next, prev) && 0 < k < |ring|
    ensures ring[k] < |next| && next[ring[k]] < |prev| && prev[ring[k]] < |next|
    ensures Circular(Without(ring, k), next[prev[ring[k]] := next[ring[k]]], prev[next[ring[k]] := prev[ring[k]]])
  {
    var b, r := ring[k], Without(ring, k);
    Links(ring, next, prev, k);
    Links(ring, next, prev, Succ(ring, k));
    Links(ring, next, prev, k - 1);
    var next': seq<nat>, prev': seq<nat> := next[prev[b] := next[b]], prev[next[b] := prev[b]];
    forall i | 0 <= i < |r| ensures LinkAt(r, next', prev', i) {
      UnlinkAt(ring, next, prev, k, i);
    }
  }

  lemma UnlinkAt(ring: seq<nat>, next: seq<nat>, prev: seq<nat>, k: nat, i: nat)
    requires Circular(ring, next, prev) && 0 < k < |ring| && i < |ring| - 1
    requires ring[k] < |next| && next[ring[k]] == ring[Succ(ring, k)] < |prev| && prev[ring[k]] == ring[k - 1] < |next|
    ensures LinkAt(Without(ring, k), next[prev[ring[k]] := next[ring[k]]], prev[next[ring[k]] := prev[ring[k]]], i)
  {
    var r := Without(ring, k);
    var i' := if i < k then i else i + 1;
    assert LinkAt(ring, next, prev, i') && r[i] == ring[i'];
    if i == k - 1 {
      assert r[Succ(r, i)] == ring[Succ(ring, k)];
    } else {
      assert r[Succ(r, i)] == ring[Succ(ring, i')];
      assert ring[i'] != ring[k - 1] && ring[Succ(ring, i')] != ring[Succ(ring, k)];
    }
  }

  // ----------------------------------------------------------------- putting a node first

  function Front(ring: seq<nat>, b: nat): seq<nat>
    requires ring != []
  {
    [ring[0], b] + ring[1..]
  }

  lemma FrontCircular(ring: seq<nat>, next: seq<nat>, prev: seq<nat>, b: nat)
    requires Circular(ring, next, prev) && b !in ring && b < |next|
    ensures ring[0] < |next| && next[ring[0]] < |prev|
    ensures Circular(Front(ring, b), next[b := next[ring[0]]][ring[0] := b], prev[b := ring[0]][next[ring[0]] := b])
  {
    var r, h := Front(ring, b), ring[0];
    Links(ring, next, prev, 0);
    Links(ring, next, prev, Succ(ring, 0));
    var next': seq<nat>, prev': seq<nat> := next[b := next[h]][h := b], prev[b := h][next[h] := b];
    forall i, j | 0 <= i < j < |r| ensures r[i] != r[j] {
      assert r[i] == if i == 0 then h else if i == 1 then b else ring[i - 1];
      assert r[j] == if j == 1 then b else ring[j - 1];
    }
    forall i | 0 <= i < |r| ensures LinkAt(r, next', prev', i) {
      if i >= 2 {
        var j := i - 1;
        assert LinkAt(ring, next, prev, j) && r[i] == ring[j] != h;
        assert r[Succ(r, i)] == ring[Succ(ring, j)];
        assert ring[Succ(ring, j)] != ring[Succ(ring, 0)];
      }
    }
  }

  // ----------------------------------------------------------------- recency

  /** After the head, the nodes come in the order of their time stamps, the latest first. */
  ghost predicate Recent(ring: seq<nat>, stamp: seq<nat>, clock: nat) {
    && (forall i :: 0 < i < |ring| ==> ring[i] < |stamp| && stamp[ring[i]] < clock)
    && (forall i, j :: 0 < i < j < |ring| ==> stamp[ring[j]] < stamp[ring[i]])
  }

  lemma WithoutRecent(ring: seq<nat>, stamp: seq<nat>, clock: nat, k: nat)
    requires Recent(ring, stamp, clock) && 0 < k < |ring|
    ensures Recent(Without(ring, k), stamp, clock)
  {
    var r := Without(ring, k);
    forall i | 0 <= i < |r| ensures r[i] == ring[if i < k then i else i + 1] { }
  }

  /** A node put first with the next time stamp. */
  lemma FrontRecent(ring: seq<nat>, stamp: seq<nat>, clock: nat, b: nat)
    requires Recent(ring, stamp, clock) && ring != [] && b !in ring && b < |stamp|
    ensures Recent(Front(ring, b), stamp[b := clock], clock + 1)
  {
    var r, stamp' := Front(ring, b), stamp[b := clock];
    forall i | 1 < i < |r| ensures r[i] == ring[i - 1] && r[i] < |stamp'| && stamp'[r[i]] == stamp[ring[i - 1]] < clock { }
  }
}
