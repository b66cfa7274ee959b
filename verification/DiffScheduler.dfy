/**
 The parallel computation of file differences: any number of workers share one
 iterator, sorted by decreasing target size, under one lock.
 */
module DiffScheduler {
  import opened Options

  /** One difference: the size of its target file, and whether a patch comes out. */
  datatype Diff = Diff(size: nat, patched: bool)

  /** The report divides by the target size once there is a patch. */
  predicate Raises(d: Diff) { d.patched && d.size == 0 }

  /** The work: the differences in the order of the sorted list, and the number
      of workers. */
  datatype Config = Config(order: seq<Diff>, workers: nat)

  /** `order` is `diffs` sorted by size, largest first, ties in any order. */
  ghost predicate SortedBySize(diffs: seq<Diff>, order: seq<Diff>) {
    multiset(order) == multiset(diffs) && forall i, j :: 0 <= i < j < |order| ==> order[i].size >= order[j].size
  }

  /** Where a worker stands; `k` is a position in the order. */
  datatype Pc =
    | Start            // about to take the lock for the first time
    | Fetch            // has the lock, about to advance the iterator
    | Took(k: nat)     // has the lock and a difference
    | Computing(k: nat)
    | Computed(k: nat) // about to take the lock again
    | Reporting(k: nat)
    | Exhausted        // has the lock, nothing left
    | Done
    | Dead             // left by an exception while reporting

  datatype State = State(lock: Option<nat>, pos: nat, pcs: seq<Pc>, computed: seq<nat>)

  predicate Holds(pc: Pc) {
    pc.Fetch? || pc.Took? || pc.Reporting? || pc.Exhausted? || pc.Dead?
  }

  /** A difference in hand whose patch is not computed yet. */
  predicate Carries(pc: Pc, k: nat) { pc == Took(k) || pc == Computing(k) }

  predicate Ended(pc: Pc) { pc.Done? || pc.Dead? }

  function Init(c: Config): State {
    State(None, 0, seq(c.workers, _ => Start), [])
  }

  predicate Enabled(s: State, w: nat) {
    && w < |s.pcs| && !Ended(s.pcs[w])
    && (s.pcs[w].Start? || s.pcs[w].Computed? ==> s.lock.None?)
  }

  /** One step of worker `w`. */
  function Step(c: Config, s: State, w: nat): State
    requires Enabled(s, w)
  {
    match s.pcs[w]
    case Start => s.(lock := Some(w), pcs := s.pcs[w := Fetch])
    case Fetch =>
      if s.pos < |c.order| then s.(pos := s.pos + 1, pcs := s.pcs[w := Took(s.pos)])
      else s.(pcs := s.pcs[w := Exhausted])
    case Took(k) => s.(lock := None, pcs := s.pcs[w := Computing(k)])
    case Computing(k) => s.(pcs := s.pcs[w := Computed(k)], computed := s.computed + [k])
    case Computed(k) => s.(lock := Some(w), pcs := s.pcs[w := Reporting(k)])
    case Reporting(k) =>
      s.(pcs := s.pcs[w := if k < |c.order| && Raises(c.order[k]) then Dead else Fetch])
    case Exhausted => s.(lock := None, pcs := s.pcs[w := Done])
    case _ => s
  }

  /** An interleaving: which worker moves next, again and again. */
  ghost predicate IsRun(c: Config, ss: seq<State>, schedule: seq<nat>) {
    && |ss| == |schedule| + 1 && ss[0] == Init(c)
    && forall i :: 0 <= i < |schedule| ==> Enabled(ss[i], schedule[i]) && ss[i + 1] == Step(c, ss[i], schedule[i])
  }

  // ---------------------------------------------------------------- the invariant

  /** The lock belongs to the worker inside the guarded code, and workers stop
      only when nothing is left. */
  ghost predicate LockInv(c: Config, s: State) {
    && |s.pcs| == c.workers && s.pos <= |c.order| && (s.lock.Some? ==> s.lock.value < |s.pcs|)
    && (forall w :: 0 <= w < |s.pcs| ==> (Holds(s.pcs[w]) <==> s.lock == Some(w)))
    && (forall w :: 0 <= w < |s.pcs| && (s.pcs[w].Exhausted? || s.pcs[w].Done?) ==> s.pos == |c.order|)
    && (forall w :: 0 <= w < |s.pcs| ==> CarriedInRange(s.pcs[w], s.pos))
  }

  /** A difference is handed out to at most one worker, computed at most once,
      and never lost. */
  ghost predicate WorkInv(s: State) {
    && (forall v, w, k: nat :: 0 <= v < w < |s.pcs| && Carries(s.pcs[v], k) ==> !Carries(s.pcs[w], k))
    && (forall w, k: nat :: 0 <= w < |s.pcs| && Carries(s.pcs[w], k) ==> k !in s.computed)
    && (forall i :: 0 <= i < |s.computed| ==> s.computed[i] < s.pos)
    && (forall i, j :: 0 <= i < j < |s.computed| ==> s.computed[i] != s.computed[j])
    && (forall k: nat :: k < s.pos ==> k in s.computed || exists w :: 0 <= w < |s.pcs| && Carries(s.pcs[w], k))
  }

  ghost predicate Inv(c: Config, s: State) { LockInv(c, s) && WorkInv(s) }

  predicate CarriedInRange(pc: Pc, pos: nat) {
    match pc
    case Took(k) => k < pos
    case Computing(k) => k < pos
    case Computed(k) => k < pos
    case Reporting(k) => k < pos
    case _ => true
  }

  lemma InitInv(c: Config)
    ensures Inv(c, Init(c))
  {
  }

  lemma StepInv(c: Config, s: State, w: nat)
    requires Inv(c, s) && Enabled(s, w)
    ensures Inv(c, Step(c, s, w))
  {
    StepLockInv(c, s, w);
    StepWorkInv(c, s, w);
  }

  lemma StepLockInv(c: Config, s: State, w: nat)
    requires LockInv(c, s) && Enabled(s, w)
    ensures LockInv(c, Step(c, s, w))
  {
    var t := Step(c, s, w);
    forall v | 0 <= v < |t.pcs| ensures CarriedInRange(t.pcs[v], t.pos) {
      assert CarriedInRange(s.pcs[v], s.pos);
    }
  }

  lemma StepWorkInv(c: Config, s: State, w: nat)
    requires Inv(c, s) && Enabled(s, w)
    ensures WorkInv(Step(c, s, w))
  {
    var t := Step(c, s, w);
    forall k: nat | k < t.pos
      ensures k in t.computed || exists v :: 0 <= v < |t.pcs| && Carries(t.pcs[v], k)
    {
      NothingLost(c, s, w, k);
    }
    if s.pcs[w].Computing? {
      ComputeInv(c, s, w);
    } else if s.pcs[w].Fetch? {
      FetchInv(c, s, w);
    }
  }

  lemma ComputeInv(c: Config, s: State, w: nat)
    requires Inv(c, s) && Enabled(s, w) && s.pcs[w].Computing?
    ensures var t := Step(c, s, w);
            && (forall v, k: nat :: 0 <= v < |t.pcs| && Carries(t.pcs[v], k) ==> k !in t.computed)
            && (forall i :: 0 <= i < |t.computed| ==> t.computed[i] < t.pos)
            && (forall i, j :: 0 <= i < j < |t.computed| ==> t.computed[i] != t.computed[j])
            && (forall v :: 0 <= v < |t.pcs| ==> CarriedInRange(t.pcs[v], t.pos))
  {
    var t, k := Step(c, s, w), s.pcs[w].k;
    assert Carries(s.pcs[w], k) && CarriedInRange(s.pcs[w], s.pos);
    assert k < s.pos && k !in s.computed;
    forall v, k': nat | 0 <= v < |t.pcs| && Carries(t.pcs[v], k') ensures k' !in t.computed {
      assert v != w && Carries(s.pcs[v], k');
    }
  }

  lemma FetchInv(c: Config, s: State, w: nat)
    requires Inv(c, s) && Enabled(s, w) && s.pcs[w].Fetch?
    ensures var t := Step(c, s, w);
            && (forall v, k: nat :: 0 <= v < |t.pcs| && Carries(t.pcs[v], k) ==> k !in t.computed)
            && (forall v, u, k: nat :: 0 <= v < u < |t.pcs| && Carries(t.pcs[v], k) ==> !Carries(t.pcs[u], k))
            && (forall v :: 0 <= v < |t.pcs| ==> CarriedInRange(t.pcs[v], t.pos))
  {
    var t := Step(c, s, w);
    forall v | 0 <= v < |t.pcs| ensures CarriedInRange(t.pcs[v], t.pos) {
      if v != w { assert CarriedInRange(s.pcs[v], s.pos); }
    }
    forall v, k: nat | 0 <= v < |t.pcs| && Carries(t.pcs[v], k) ensures k !in t.computed {
      if v != w { assert Carries(s.pcs[v], k); }
    }
    forall v, u, k: nat | 0 <= v < u < |t.pcs| && Carries(t.pcs[v], k) ensures !Carries(t.pcs[u], k) {
      if v != w { assert Carries(s.pcs[v], k) && CarriedInRange(s.pcs[v], s.pos); }
      if u != w { assert CarriedInRange(s.pcs[u], s.pos); }
    }
  }

  lemma NothingLost(c: Config, s: State, w: nat, k: nat)
    requires Inv(c, s) && Enabled(s, w) && k < Step(c, s, w).pos
    ensures var t := Step(c, s, w);
            k in t.computed || exists v :: 0 <= v < |t.pcs| && Carries(t.pcs[v], k)
  {
    var t := Step(c, s, w);
    if k == s.pos {
      assert Carries(t.pcs[w], k);
    } else if k !in s.computed {
      var v :| 0 <= v < |s.pcs| && Carries(s.pcs[v], k);
      if v != w {
        assert Carries(t.pcs[v], k);
      } else if s.pcs[w] == Took(k) {
        assert Carries(t.pcs[w], k);
      }
    }
  }

  lemma RunInv(c: Config, ss: seq<State>, schedule: seq<nat>, i: nat)
    requires IsRun(c, ss, schedule) && i <= |schedule|
    ensures Inv(c, ss[i])
    decreases i
  {
    if i == 0 {
      InitInv(c);
    } else {
      RunInv(c, ss, schedule, i - 1);
      StepInv(c, ss[i - 1], schedule[i - 1]);
    }
  }

  // ---------------------------------------------------------------- safety

  /** In every interleaving the iterator is advanced only by the worker that
      holds the lock, and no two workers are ever inside the guarded code. */
  lemma LockGuardsIterator(c: Config, ss: seq<State>, schedule: seq<nat>, i: nat)
    requires IsRun(c, ss, schedule) && i < |schedule|
    ensures ss[i + 1].pos != ss[i].pos ==> ss[i].lock == Some(schedule[i])
    ensures forall v, w :: 0 <= v < w < |ss[i].pcs| ==> !(Holds(ss[i].pcs[v]) && Holds(ss[i].pcs[w]))
  {
    RunInv(c, ss, schedule, i);
  }

  lemma PosGrows(c: Config, ss: seq<State>, schedule: seq<nat>, i: nat, j: nat)
    requires IsRun(c, ss, schedule) && i <= j <= |schedule|
    ensures ss[i].pos <= ss[j].pos
    decreases j
  {
    if i < j { PosGrows(c, ss, schedule, i, j - 1); }
  }

  /** A step hands out a difference. */
  ghost predicate HandsOut(ss: seq<State>, i: nat) {
    i + 1 < |ss| && ss[i + 1].pos != ss[i].pos
  }

  /** Differences are handed out in order of non-increasing target size. */
  lemma HandedOutBySize(c: Config, diffs: seq<Diff>, ss: seq<State>, schedule: seq<nat>, i: nat, j: nat)
    requires IsRun(c, ss, schedule) && SortedBySize(diffs, c.order)
    requires i < j && HandsOut(ss, i) && HandsOut(ss, j)
    ensures ss[i].pos < ss[j].pos < |c.order|
    ensures c.order[ss[i].pos].size >= c.order[ss[j].pos].size
  {
    PosGrows(c, ss, schedule, i + 1, j);
    assert ss[i + 1] == Step(c, ss[i], schedule[i]) && ss[j + 1] == Step(c, ss[j], schedule[j]);
  }

  // ---------------------------------------------------------------- termination

  function Rank(pc: Pc): nat {
    match pc
    case Start => 3
    case Fetch => 2
    case Took(_) => 6
    case Computing(_) => 5
    case Computed(_) => 4
    case Reporting(_) => 3
    case Exhausted => 1
    case Done => 0
    case Dead => 0
  }

  function RankSum(pcs: seq<Pc>): nat {
    if |pcs| == 0 then 0 else RankSum(pcs[..|pcs| - 1]) + Rank(pcs[|pcs| - 1])
  }

  lemma {:induction false} RankSumUpdate(pcs: seq<Pc>, w: nat, pc: Pc)
    requires w < |pcs|
    ensures RankSum(pcs[w := pc]) == RankSum(pcs) - Rank(pcs[w]) + Rank(pc)
  {
    var n := |pcs| - 1;
    if w == n {
      assert pcs[w := pc][..n] == pcs[..n];
    } else {
      RankSumUpdate(pcs[..n], w, pc);
      assert pcs[w := pc][..n] == pcs[..n][w := pc];
    }
  }

  function Work(c: Config, s: State): int {
    5 * (|c.order| - s.pos) + RankSum(s.pcs)
  }

  lemma StepWorks(c: Config, s: State, w: nat)
    requires Inv(c, s) && Enabled(s, w)
    ensures Work(c, Step(c, s, w)) < Work(c, s)
  {
    RankSumUpdate(s.pcs, w, Step(c, s, w).pcs[w]);
  }

  lemma {:induction false} StartRanks(n: nat)
    ensures RankSum(seq(n, _ => Start)) == 3 * n
  {
    if n > 0 {
      var p := seq(n, _ => Start);
      assert p[..n - 1] == seq(n - 1, _ => Start);
      StartRanks(n - 1);
    }
  }

  lemma RunWork(c: Config, ss: seq<State>, schedule: seq<nat>, i: nat)
    requires IsRun(c, ss, schedule) && i <= |schedule|
    ensures Work(c, ss[i]) + i <= 5 * |c.order| + 3 * c.workers
    decreases i
  {
    if i == 0 {
      StartRanks(c.workers);
    } else {
      RunWork(c, ss, schedule, i - 1);
      RunInv(c, ss, schedule, i - 1);
      StepWorks(c, ss[i - 1], schedule[i - 1]);
    }
  }

  /** Every interleaving ends: it has at most five steps per difference and
      three per worker. */
  lemma RunsAreBounded(c: Config, ss: seq<State>, schedule: seq<nat>)
    requires IsRun(c, ss, schedule)
    ensures |schedule| <= 5 * |c.order| + 3 * c.workers
  {
    RunWork(c, ss, schedule, |schedule|);
    RunInv(c, ss, schedule, |schedule|);
  }

  // ---------------------------------------------------------------- completion

  predicate Stuck(s: State) {
    forall w :: 0 <= w < |s.pcs| ==> !Enabled(s, w)
  }

  predicate SomeoneWaits(s: State) {
    exists w :: 0 <= w < |s.pcs| && !Ended(s.pcs[w])
  }

  /** Some worker waits for ever. */
  predicate Deadlocked(s: State) { Stuck(s) && SomeoneWaits(s) }

  predicate NoneRaises(c: Config) {
    forall k :: 0 <= k < |c.order| ==> !Raises(c.order[k])
  }

  lemma NobodyDies(c: Config, ss: seq<State>, schedule: seq<nat>, i: nat)
    requires IsRun(c, ss, schedule) && i <= |schedule| && NoneRaises(c)
    ensures forall w :: 0 <= w < |ss[i].pcs| ==> !ss[i].pcs[w].Dead?
    decreases i
  {
    if i > 0 {
      NobodyDies(c, ss, schedule, i - 1);
      assert ss[i] == Step(c, ss[i - 1], schedule[i - 1]);
    }
  }

  lemma LiveStateMoves(c: Config, s: State)
    requires Inv(c, s) && forall w :: 0 <= w < |s.pcs| ==> !s.pcs[w].Dead?
    requires SomeoneWaits(s)
    ensures !Stuck(s)
  {
    var w :| 0 <= w < |s.pcs| && !Ended(s.pcs[w]);
    if s.lock.Some? {
      assert Holds(s.pcs[s.lock.value]);
      assert Enabled(s, s.lock.value);
    } else {
      assert Enabled(s, w);
    }
  }

  /** Without exceptions no interleaving deadlocks, and one that cannot go on
      has computed every difference exactly once, ended every worker and left
      the lock free. */
  lemma RunsComplete(c: Config, ss: seq<State>, schedule: seq<nat>)
    requires IsRun(c, ss, schedule) && NoneRaises(c) && c.workers > 0
    ensures var s := ss[|schedule|];
            && !Deadlocked(s)
            && (Stuck(s) ==>
                  && (forall w :: 0 <= w < |s.pcs| ==> s.pcs[w].Done?) && s.lock.None?
                  && (forall k: nat :: k < |c.order| ==> k in s.computed)
                  && (forall i :: 0 <= i < |s.computed| ==> s.computed[i] < |c.order|)
                  && (forall i, j :: 0 <= i < j < |s.computed| ==> s.computed[i] != s.computed[j]))
  {
    var s := ss[|schedule|];
    RunInv(c, ss, schedule, |schedule|);
    NobodyDies(c, ss, schedule, |schedule|);
    if SomeoneWaits(s) {
      LiveStateMoves(c, s);
    } else {
      assert forall w :: 0 <= w < |s.pcs| ==> s.pcs[w].Done?;
      assert s.pcs[0].Done?;
    }
  }

  // ---------------------------------------------------------------- exceptions

  /** The state after worker 0 alone has dealt with the first `k` differences. */
  function Alone(c: Config, k: nat): State
    requires c.workers > 0
  {
    State(Some(0), k, seq(c.workers, w => if w == 0 then Fetch else Start), seq(k, i => i))
  }

  lemma Extend(c: Config, ss: seq<State>, schedule: seq<nat>, w: nat) returns (ss': seq<State>, schedule': seq<nat>)
    requires IsRun(c, ss, schedule) && Enabled(ss[|schedule|], w)
    ensures IsRun(c, ss', schedule') && schedule' == schedule + [w]
    ensures ss'[|schedule'|] == Step(c, ss[|schedule|], w)
  {
    schedule' := schedule + [w];
    ss' := ss + [Step(c, ss[|schedule|], w)];
  }

  lemma AloneReached(c: Config, k: nat) returns (ss: seq<State>, schedule: seq<nat>)
    requires c.workers > 0 && k <= |c.order| && forall i :: 0 <= i < k ==> !Raises(c.order[i])
    ensures IsRun(c, ss, schedule) && ss[|schedule|] == Alone(c, k)
  {
    if k == 0 {
      ss, schedule := [Init(c)], [];
      ss, schedule := Extend(c, ss, schedule, 0);
      assert ss[|schedule|].pcs == Alone(c, 0).pcs;
    } else {
      ss, schedule := AloneReached(c, k - 1);
      ss, schedule := Extend(c, ss, schedule, 0);
      ss, schedule := Extend(c, ss, schedule, 0);
      ss, schedule := Extend(c, ss, schedule, 0);
      ss, schedule := Extend(c, ss, schedule, 0);
      ss, schedule := Extend(c, ss, schedule, 0);
      assert ss[|schedule|].pcs == Alone(c, k).pcs;
      assert ss[|schedule|].computed == Alone(c, k).computed;
    }
  }

  /** A patched difference of size 0 takes the lock with it: with a second
      worker some interleaving then waits for ever. */
  lemma RaisingDeadlocks(c: Config, k: nat) returns (ss: seq<State>, schedule: seq<nat>)
    requires c.workers >= 2 && k < |c.order| && Raises(c.order[k])
    requires forall i :: 0 <= i < k ==> !Raises(c.order[i])
    ensures IsRun(c, ss, schedule) && Deadlocked(ss[|schedule|])
  {
    ss, schedule := AloneReached(c, k);
    ss, schedule := Extend(c, ss, schedule, 0);
    ss, schedule := Extend(c, ss, schedule, 0);
    ss, schedule := Extend(c, ss, schedule, 0);
    ss, schedule := Extend(c, ss, schedule, 0);
    ss, schedule := Extend(c, ss, schedule, 0);
    var s := ss[|schedule|];
    assert s.pcs[0].Dead? && s.lock == Some(0);
    assert forall w :: 1 <= w < |s.pcs| ==> s.pcs[w].Start?;
    assert !Ended(s.pcs[1]);
  }

  lemma FirstRaising(c: Config) returns (k: nat)
    requires !NoneRaises(c)
    ensures k < |c.order| && Raises(c.order[k]) && forall i :: 0 <= i < k ==> !Raises(c.order[i])
  {
    k := 0;
    while !Raises(c.order[k])
      invariant k < |c.order| && forall i :: 0 <= i < k ==> !Raises(c.order[i])
      invariant exists j :: k <= j < |c.order| && Raises(c.order[j])
      decreases |c.order| - k
    {
      k := k + 1;
    }
  }

  /** Exactly when: with two workers or more, all interleavings are free of
      deadlock if and only if no difference has both a patch and an empty target. */
  lemma DeadlockFreeExactly(c: Config)
    requires c.workers >= 2
    ensures (forall ss, schedule :: IsRun(c, ss, schedule) ==> !Deadlocked(ss[|schedule|]))
            <==> forall k :: 0 <= k < |c.order| ==> !(c.order[k].patched && c.order[k].size == 0)
  {
    if NoneRaises(c) {
      forall ss, schedule | IsRun(c, ss, schedule) ensures !Deadlocked(ss[|schedule|]) {
        RunsComplete(c, ss, schedule);
      }
    } else {
      var k := FirstRaising(c);
      var ss, schedule := RaisingDeadlocks(c, k);
    }
  }
}
