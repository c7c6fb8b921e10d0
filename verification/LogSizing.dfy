/** How large the log must be.  log_write refuses a list of log.size - 1 blocks
    (log.c:218) while begin_op reserves against LOGSIZE (log.c:133), and mkfs makes
    the log LOGSIZE blocks long.  The two tests agree exactly when the log has
    2 * limit + MAXOPBLOCKS + 1 blocks, `limit` being the calls one operation makes. */
module LogSizing {
  import opened RedoLog
  import opened GroupCommit

  /** The start of the runs below: at least two processes, and home blocks after the log region. */
  ghost predicate Start(c: Config, s: State) {
    && Init(c, s) && |s.procs| >= 2
    && c.g.start + c.g.size + LOGSIZE <= |s.disk|
  }

  function Blocks(c: Config, n: nat): (lh: seq<nat>)
    ensures |lh| == n && forall i :: 0 <= i < n ==> lh[i] == c.g.start + c.g.size + i
  {
    if n == 0 then [] else Blocks(c, n - 1) + [c.g.start + c.g.size + n - 1]
  }

  function Contents(c: Config, n: nat): map<nat, Block> {
    if n == 0 then map[] else Contents(c, n - 1)[c.g.start + c.g.size + n - 1 := []]
  }

  /** What the first two processes do; the others do nothing. */
  function Two(s: State, a: Pc, b: Pc): (r: seq<Pc>)
    requires s.Up? && |s.procs| >= 2
    ensures |r| == |s.procs| && r[0] == a && r[1] == b
  {
    s.procs[0 := a][1 := b]
  }

  /** Some run leads from s to t. */
  ghost predicate Reaches(c: Config, s: State, t: State) {
    exists states: seq<State>, events: seq<Event> :: Leads(c, s, t, states, events)
  }

  ghost predicate Leads(c: Config, s: State, t: State, states: seq<State>, events: seq<Event>) {
    IsRun(c, states, events) && states[0] == s && states[|states| - 1] == t
  }

  lemma Nowhere(c: Config, s: State)
    requires Init(c, s)
    ensures Reaches(c, s, s)
  {
    assert Leads(c, s, s, [s], []);
  }

  lemma Onward(c: Config, s: State, t: State, e: Event)
    requires Reaches(c, s, t) && Enabled(c, t, e)
    ensures Reaches(c, s, Step(c, t, e))
  {
    var states, events :| Leads(c, s, t, states, events);
    var n := |events|;
    var states', events' := states + [Step(c, t, e)], events + [e];
    forall i | 0 <= i < n + 1 ensures Next(c, states'[i], events'[i], states'[i + 1]) {
      if i < n {
        assert Next(c, states[i], events[i], states[i + 1]);
      }
    }
    assert Leads(c, s, Step(c, t, e), states', events');
  }

  /** n blocks are logged, and the first two processes of `outstanding` are at a and b. */
  function Mid(c: Config, s: State, n: nat, outstanding: int, a: Pc, b: Pc): (r: State)
    requires s.Up? && |s.procs| >= 2
    ensures r.Up?
  {
    s.(lh := Blocks(c, n), pending := Contents(c, n), outstanding := outstanding, procs := Two(s, a, b))
  }

  /** A second operation begins. */
  lemma SecondBegins(c: Config, s: State, n: nat)
    requires Start(c, s) && n <= MAXOPBLOCKS && Reaches(c, s, Mid(c, s, n, 1, InOp(0), Idle))
    ensures Reaches(c, s, Mid(c, s, n, 2, InOp(0), InOp(0)))
  {
    hide Reaches;
    var t := Mid(c, s, n, 1, InOp(0), Idle);
    Onward(c, s, t, Begin(1));
    assert Step(c, t, Begin(1)).procs == Two(s, InOp(0), InOp(0));
  }

  /** Process 0 or 1 passes the test of log_write. */
  lemma Passes(c: Config, s: State, n: nat, a: Pc, b: Pc, p: nat)
    requires Start(c, s) && n < LOGSIZE && n + 1 < c.g.size && p < 2
    requires var pc := if p == 0 then a else b; pc.InOp? && pc.calls < c.limit
    requires Reaches(c, s, Mid(c, s, n, 2, a, b))
    ensures p == 0 ==> Reaches(c, s, Mid(c, s, n, 2, Checked(a.calls), b))
    ensures p == 1 ==> Reaches(c, s, Mid(c, s, n, 2, a, Checked(b.calls)))
  {
    hide Reaches;
    var t := Mid(c, s, n, 2, a, b);
    Onward(c, s, t, Check(p));
    assert Step(c, t, Check(p)).procs == if p == 0 then Two(s, Checked(a.calls), b) else Two(s, a, Checked(b.calls));
  }

  /** It appends the next home block. */
  lemma Appends(c: Config, s: State, n: nat, a: Pc, b: Pc, p: nat)
    requires Start(c, s) && n < LOGSIZE && p < 2 && (if p == 0 then a.Checked? else b.Checked?)
    requires Reaches(c, s, Mid(c, s, n, 2, a, b))
    ensures p == 0 ==> Reaches(c, s, Mid(c, s, n + 1, 2, InOp(a.calls + 1), b))
    ensures p == 1 ==> Reaches(c, s, Mid(c, s, n + 1, 2, a, InOp(b.calls + 1)))
  {
    hide Reaches;
    var t, e := Mid(c, s, n, 2, a, b), Append(p, c.g.start + c.g.size + n, []);
    Onward(c, s, t, e);
    assert Step(c, t, e).lh == Blocks(c, n + 1) && Step(c, t, e).pending == Contents(c, n + 1);
    assert Step(c, t, e).procs == if p == 0 then Two(s, InOp(a.calls + 1), b) else Two(s, a, InOp(b.calls + 1));
  }

  /** Process 1 ends its operation while process 0 goes on. */
  lemma SecondEnds(c: Config, s: State, n: nat)
    requires Start(c, s) && Reaches(c, s, Mid(c, s, n, 2, InOp(0), InOp(1)))
    ensures Reaches(c, s, Mid(c, s, n, 1, InOp(0), Idle))
  {
    hide Reaches;
    var t := Mid(c, s, n, 2, InOp(0), InOp(1));
    Onward(c, s, t, End(1));
    assert Step(c, t, End(1)).procs == Two(s, InOp(0), Idle);
  }

  /** Process 0 is inside an operation; process 1 has completed n short ones. */
  lemma {:induction false} ShortOps(c: Config, s: State, n: nat)
    requires Start(c, s) && 1 <= c.limit && n <= MAXOPBLOCKS && n < c.g.size
    ensures Reaches(c, s, Mid(c, s, n, 1, InOp(0), Idle))
  {
    hide Reaches;
    if n == 0 {
      Nowhere(c, s);
      Onward(c, s, s, Begin(0));
      assert Step(c, s, Begin(0)).procs == Two(s, InOp(0), Idle);
    } else {
      ShortOps(c, s, n - 1);
      SecondBegins(c, s, n - 1);
      Passes(c, s, n - 1, InOp(0), InOp(0), 1);
      Appends(c, s, n - 1, InOp(0), Checked(0), 1);
      SecondEnds(c, s, n);
    }
  }

  /** Then both are inside an operation and have made j calls in turn. */
  lemma {:induction false} TwoOps(c: Config, s: State, j: nat)
    requires Start(c, s) && 1 <= c.limit <= MAXOPBLOCKS && j <= 2 * c.limit && MAXOPBLOCKS + j < c.g.size
    ensures Reaches(c, s, Mid(c, s, MAXOPBLOCKS + j, 2, InOp((j + 1) / 2), InOp(j / 2)))
  {
    hide Reaches;
    if j == 0 {
      ShortOps(c, s, MAXOPBLOCKS);
      SecondBegins(c, s, MAXOPBLOCKS);
    } else {
      var i, n := j - 1, MAXOPBLOCKS + j - 1;
      TwoOps(c, s, i);
      var a, b := InOp((i + 1) / 2), InOp(i / 2);
      if i % 2 == 0 {
        Passes(c, s, n, a, b, 0);
        Appends(c, s, n, Checked(a.calls), b, 0);
      } else {
        Passes(c, s, n, a, b, 1);
        Appends(c, s, n, a, Checked(b.calls), 1);
      }
    }
  }

  // ----------------------------------------------------------------- the panic

  /** One block too few and an operation within its limit panics. */
  lemma SmallLogPanics(c: Config, s: State)
    requires Start(c, s) && 1 <= c.limit <= MAXOPBLOCKS && c.g.size <= 2 * c.limit + MAXOPBLOCKS
    ensures Reaches(c, s, Panicked)
  {
    hide Reaches;
    var n := c.g.size - 1;
    if n < MAXOPBLOCKS {
      ShortOps(c, s, n);
      Onward(c, s, Mid(c, s, n, 1, InOp(0), Idle), Check(0));
    } else {
      var j := n - MAXOPBLOCKS;
      TwoOps(c, s, j);
      Onward(c, s, Mid(c, s, n, 2, InOp((j + 1) / 2), InOp(j / 2)), Check(j % 2));
    }
  }

  /** The condition is exact: no run panics if and only if the log is that large. */
  lemma LogSizeExact(c: Config, s: State)
    requires Start(c, s) && 1 <= c.limit <= MAXOPBLOCKS
    ensures c.g.size > 2 * c.limit + MAXOPBLOCKS <==> !Reaches(c, s, Panicked)
  {
    if c.g.size > 2 * c.limit + MAXOPBLOCKS {
      forall states: seq<State>, events: seq<Event> ensures !Leads(c, s, Panicked, states, events) {
        if IsRun(c, states, events) {
          Safety(c, states, events, |states| - 1);
        }
      }
    } else {
      SmallLogPanics(c, s);
    }
  }

  // ----------------------------------------------------------------- leaving the log region

  /** The test of log_write is made before the lock is taken: two processes that pass it
      together both append, and the list is then as long as the log region, so that its last
      slot is outside. */
  lemma BothPass(c: Config, s: State, n: nat, a: nat, b: nat)
    requires Start(c, s) && n + 2 == c.g.size <= LOGSIZE && a < c.limit && b < c.limit
    requires Reaches(c, s, Mid(c, s, n, 2, InOp(a), InOp(b)))
    ensures Reaches(c, s, Mid(c, s, c.g.size, 2, InOp(a + 1), InOp(b + 1)))
  {
    hide Reaches;
    Passes(c, s, n, InOp(a), InOp(b), 0);
    Passes(c, s, n, Checked(a), InOp(b), 1);
    Appends(c, s, n, Checked(a), Checked(b), 0);
    Appends(c, s, n + 1, InOp(a + 1), Checked(b), 1);
  }

  /** On every log that is too small, and has a slot at all, some run overruns it. */
  lemma StaleTestOverruns(c: Config, s: State) returns (t: State)
    requires Start(c, s) && 1 <= c.limit <= MAXOPBLOCKS && 2 <= c.g.size <= 2 * c.limit + MAXOPBLOCKS
    ensures Reaches(c, s, t) && t.Up? && |t.lh| == c.g.size && !InLog(c.g, c.g.start + |t.lh|)
  {
    hide Reaches;
    var n := c.g.size - 2;
    if n < MAXOPBLOCKS {
      ShortOps(c, s, n);
      SecondBegins(c, s, n);
      BothPass(c, s, n, 0, 0);
      t := Mid(c, s, c.g.size, 2, InOp(1), InOp(1));
    } else {
      var j := n - MAXOPBLOCKS;
      TwoOps(c, s, j);
      BothPass(c, s, n, (j + 1) / 2, j / 2);
      t := Mid(c, s, c.g.size, 2, InOp((j + 1) / 2 + 1), InOp(j / 2 + 1));
    }
  }

  /** On a log of one block, the header, log_write panics before it appends anything. */
  ghost predicate NothingLogged(s: State) {
    s.Up? ==> s.lh == [] && forall p :: 0 <= p < |s.procs| ==> !s.procs[p].Checked?
  }

  lemma {:induction false} HeaderOnly(c: Config, states: seq<State>, events: seq<Event>, i: nat)
    requires IsRun(c, states, events) && c.g.size == 1 && i < |states|
    ensures NothingLogged(states[i])
  {
    if i > 0 {
      var j := i - 1;
      HeaderOnly(c, states, events, j);
      assert Next(c, states[j], events[j], states[j + 1]);
    }
  }

  /** No run from s makes the list longer than the log region has slots. */
  ghost predicate NeverOverruns(c: Config, s: State) {
    forall t :: Reaches(c, s, t) && t.Up? ==> |t.lh| < c.g.size
  }

  /** The condition is exact again: the list stays inside the log region in all runs if and
      only if the log is that large, or has no slot at all. */
  lemma OverrunExact(c: Config, s: State)
    requires Start(c, s) && 1 <= c.limit <= MAXOPBLOCKS
    ensures NeverOverruns(c, s) <==> c.g.size == 1 || c.g.size > 2 * c.limit + MAXOPBLOCKS
  {
    if c.g.size == 1 || c.g.size > 2 * c.limit + MAXOPBLOCKS {
      forall t | Reaches(c, s, t) && t.Up? ensures |t.lh| < c.g.size {
        var states, events :| Leads(c, s, t, states, events);
        if c.g.size == 1 {
          HeaderOnly(c, states, events, |states| - 1);
        } else {
          Safety(c, states, events, |states| - 1);
        }
      }
    } else {
      var t := StaleTestOverruns(c, s);
      assert Reaches(c, s, t);
    }
  }

  // ----------------------------------------------------------------- how many at once

  /** begin_op never admits more operations than have room for MAXOPBLOCKS blocks each. */
  lemma {:induction false} AtMostThree(c: Config, states: seq<State>, events: seq<Event>, i: nat)
    requires IsRun(c, states, events) && i < |states|
    ensures states[i].Up? ==> states[i].outstanding * MAXOPBLOCKS <= LOGSIZE
  {
    if i > 0 {
      var j := i - 1;
      AtMostThree(c, states, events, j);
      assert Next(c, states[j], events[j], states[j + 1]);
    }
  }

  /** And it admits that many. */
  lemma ThreeAtOnce(c: Config, s: State) returns (t: State)
    requires Start(c, s) && |s.procs| >= 3
    ensures Reaches(c, s, t) && t.Up? && t.outstanding * MAXOPBLOCKS == LOGSIZE
  {
    hide Reaches;
    Nowhere(c, s);
    var t1 := Step(c, s, Begin(0));
    Onward(c, s, s, Begin(0));
    var t2 := Step(c, t1, Begin(1));
    Onward(c, s, t1, Begin(1));
    t := Step(c, t2, Begin(2));
    Onward(c, s, t2, Begin(2));
  }
}
