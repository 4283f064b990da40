/** What each step of the pipeline achieves, field by field: that it is no more and no less than one step. */
module StepEffects {
  import opened Ops
  import opened OpPool
  import opened Stages
  import opened Pipeline
  import opened PipelineSteps
  import opened PipelineRuns

  // ----- fetch

  /** The ops the front end supplies before it has nothing or the packet must break. */
  function TakesAhead(fs: seq<Fetch>): (k: nat)
    ensures k <= |fs| && (forall i :: 0 <= i < k ==> fs[i].Take?) && (k < |fs| ==> !fs[k].Take?)
  {
    if fs != [] && fs[0].Take? then 1 + TakesAhead(fs[1..]) else 0
  }

  /** How many ops are fetched: all that are supplied, or as many as the stage has room for. */
  function FetchedCount(c: Config, p: Pipe, fs: seq<Fetch>): (n: nat)
    ensures n <= TakesAhead(fs) && (p.ic.count <= c.issueWidth ==> p.ic.count + n <= c.issueWidth)
    ensures n == TakesAhead(fs) || p.ic.count + n >= c.issueWidth
  {
    if p.ic.count >= c.issueWidth then 0
    else if TakesAhead(fs) < c.issueWidth - p.ic.count then TakesAhead(fs)
    else c.issueWidth - p.ic.count
  }

  ghost predicate MispredBefore(fs: seq<Fetch>, n: nat) {
    exists j :: 0 <= j < n && j < |fs| && fs[j].Take? && fs[j].inst.mispred
  }

  /** The n ops appended to the sequential list: number i carries the instruction supplied i-th. */
  ghost predicate Appended(p: Pipe, q: Pipe, fs: seq<Fetch>, n: nat) {
    && n <= |fs| && |q.seqOps| == |p.seqOps| + n && q.seqOps[..|p.seqOps|] == p.seqOps
    && forall i :: 0 <= i < n ==>
      && fs[i].Take?
      && var op := q.seqOps[|p.seqOps| + i];
         && op.inst == fs[i].inst && op.num == p.opCount + i && op.unique == p.uniqueCount + i
         && (op.offPath <==> p.offPath || MispredBefore(fs, i))
  }

  ghost predicate Counted(p: Pipe, q: Pipe, fs: seq<Fetch>, n: nat) {
    && q.opCount == p.opCount + n && q.uniqueCount == p.uniqueCount + n
    && (q.offPath <==> p.offPath || MispredBefore(fs, n))
  }

  /** They stand in the next n slots of the stage. */
  ghost predicate Stored(p: Pipe, q: Pipe, n: nat) {
    && |q.seqOps| == |p.seqOps| + n && q.ic.count == p.ic.count + n && |q.ic.ops| == |p.ic.ops|
    && forall i :: 0 <= i < |p.ic.ops| ==>
      q.ic.ops[i] == if p.ic.count <= i < p.ic.count + n then Some(q.seqOps[|p.seqOps| + (i - p.ic.count)])
                     else p.ic.ops[i]
  }

  /** Each has a slot of the pool that was not in use. */
  ghost predicate Allocated(p: Pipe, q: Pipe, n: nat) {
    && |q.seqOps| == |p.seqOps| + n && q.pool.active == p.pool.active + n
    && SlotsTaken(p.pool, q.pool, q.seqOps, |p.seqOps|)
  }

  /** The slots of the ops from place m on are what `after` has in use beyond `before`, all different. */
  ghost predicate SlotsTaken(before: Pool, after: Pool, ops: seq<Op>, m: nat) {
    && (forall s :: InUse(after, s) <==> InUse(before, s) || exists i :: m <= i < |ops| && ops[i].slot == s)
    && (forall i :: m <= i < |ops| ==> !InUse(before, ops[i].slot))
    && forall i, j :: m <= i < j < |ops| ==> ops[i].slot != ops[j].slot
  }

  lemma SlotsTakenMore(before: Pool, mid: Pool, after: Pool, ops: seq<Op>, m: nat)
    requires m < |ops| && SlotsTaken(mid, after, ops, m + 1) && !InUse(before, ops[m].slot)
    requires forall s :: InUse(mid, s) <==> InUse(before, s) || s == ops[m].slot
    ensures SlotsTaken(before, after, ops, m)
  {
  }

  ghost predicate Fetched(p: Pipe, q: Pipe, fs: seq<Fetch>, n: nat) {
    Appended(p, q, fs, n) && Counted(p, q, fs, n) && Stored(p, q, n) && Allocated(p, q, n)
  }

  lemma MispredNext(fs: seq<Fetch>, n: nat)
    requires fs != [] && fs[0].Take?
    ensures MispredBefore(fs, n + 1) <==> fs[0].inst.mispred || MispredBefore(fs[1..], n)
  {
    if j :| 0 <= j < n + 1 && j < |fs| && fs[j].Take? && fs[j].inst.mispred {
      assert j > 0 ==> fs[1..][j - 1] == fs[j];
    }
    if j :| 0 <= j < n && j < |fs[1..]| && fs[1..][j].Take? && fs[1..][j].inst.mispred {
      assert fs[j + 1] == fs[1..][j];
    }
  }

  /** One op more in front. */
  lemma AppendedMore(p: Pipe, q: Pipe, fs: seq<Fetch>, n: nat)
    requires CanFetchOne(p) && fs != [] && fs[0].Take? && Appended(FetchOne(p, fs[0].inst), q, fs[1..], n)
    ensures Appended(p, q, fs, n + 1)
  {
    var m := |p.seqOps|;
    assert q.seqOps[..m + 1] == p.seqOps + [FetchedOp(p, fs[0].inst)];
    assert q.seqOps[..m] == q.seqOps[..m + 1][..m] && q.seqOps[m] == q.seqOps[..m + 1][m];
    forall i | 0 <= i < n + 1 ensures
      && fs[i].Take? && q.seqOps[m + i].inst == fs[i].inst && q.seqOps[m + i].num == p.opCount + i
      && q.seqOps[m + i].unique == p.uniqueCount + i
      && (q.seqOps[m + i].offPath <==> p.offPath || MispredBefore(fs, i)) {
      if i > 0 {
        MispredNext(fs, i - 1);
        assert fs[1..][i - 1] == fs[i] && q.seqOps[m + 1 + (i - 1)] == q.seqOps[m + i];
      }
    }
  }

  ghost predicate CanFetchOne(p: Pipe) { PoolInv(p.pool) && p.ic.count < |p.ic.ops| }

  lemma StoredMore(p: Pipe, q: Pipe, inst: Inst, n: nat)
    requires CanFetchOne(p) && Stored(FetchOne(p, inst), q, n) && q.seqOps[..|p.seqOps| + 1] == FetchOne(p, inst).seqOps
    ensures Stored(p, q, n + 1)
  {
    var k := p.ic.count;
    assert q.seqOps[|p.seqOps|] == q.seqOps[..|p.seqOps| + 1][|p.seqOps|] == FetchedOp(p, inst);
  }

  lemma AllocatedMore(p: Pipe, q: Pipe, inst: Inst, n: nat)
    requires CanFetchOne(p) && Allocated(FetchOne(p, inst), q, n)
    requires q.seqOps[..|p.seqOps| + 1] == FetchOne(p, inst).seqOps
    ensures Allocated(p, q, n + 1)
  {
    var m, r := |p.seqOps|, FetchOne(p, inst);
    AllocTakesFreshSlot(p.pool);
    assert q.seqOps[m] == q.seqOps[..m + 1][m] == FetchedOp(p, inst);
    SlotsTakenMore(p.pool, r.pool, q.pool, q.seqOps, m);
  }

  lemma FetchedMore(p: Pipe, q: Pipe, fs: seq<Fetch>, n: nat)
    requires CanFetchOne(p) && fs != [] && fs[0].Take? && Fetched(FetchOne(p, fs[0].inst), q, fs[1..], n)
    ensures Fetched(p, q, fs, n + 1)
  {
    AppendedMore(p, q, fs, n);
    MispredNext(fs, n);
    StoredMore(p, q, fs[0].inst, n);
    AllocatedMore(p, q, fs[0].inst, n);
  }

  /** Once a recovery has brought fetch back, the next op fetched is on the correct path. */
  lemma FetchResumesOnPath(c: Config, p: Pipe, inst: Inst)
    requires Inv(c, p) && p.pending.Some? && !p.pending.value.offPath
    ensures var q := Step(c, p, Recovery); Inv(c, q) && !Enabled(c, q, FetchOp(Take(inst)))
    ensures var q := Step(c, p, Recovery);
      Enabled(c, q, BeginFetch) && c.issueWidth > 0 ==>
        var r := Step(c, q, BeginFetch);
        Enabled(c, r, FetchOp(Take(inst))) && !FetchedOp(r, inst).offPath
  {
    StepKeepsInv(c, p, Recovery);
  }

  // ----- decode and map

  lemma SplitLast(all: seq<Stage>, n: nat)
    requires |all| == n + 1
    ensures all[..n] + [all[n]] == all
  {
  }

  /** The decode stages, with the icache stage behind them, move up by one if any is empty. */
  lemma DecodeMovesUp(c: Config, p: Pipe)
    requires Inv(c, p)
    ensures var q := Step(c, p, Decode); MovedUp(p.decPipe + [p.ic], q.decPipe + [q.ic])
  {
    ShiftMovesUp(p.decPipe + [p.ic]);
    SplitLast(Shift(p.decPipe + [p.ic]), |p.decPipe|);
  }

  /** So do the map stages, with the last decode stage behind them. */
  lemma MapMovesUp(c: Config, p: Pipe)
    requires Inv(c, p)
    ensures var q := Step(c, p, MapOps);
      && |q.decPipe| == |p.decPipe| && q.decPipe[1..] == p.decPipe[1..]
      && MovedUp(p.mapPipe + [p.decPipe[0]], q.mapPipe + [q.decPipe[0]])
  {
    ShiftMovesUp(p.mapPipe + [p.decPipe[0]]);
    SplitLast(Shift(p.mapPipe + [p.decPipe[0]]), |p.mapPipe|);
  }

  // ----- node_issue

  /** Exactly k of the waiting ops are taken: within the table, a synchronizing op only into an empty table and
      as the last of the group; and there is a reason to stop there. */
  ghost predicate TakesExactly(tableSize: nat, occupied: nat, waiting: seq<Op>, k: nat) {
    && k <= |waiting| && (k > 0 ==> occupied + k <= tableSize)
    && (forall i :: 0 <= i < k && waiting[i].inst.barIssue ==> occupied == 0 && k == 1)
    && (k < |waiting| ==>
          || occupied + k >= tableSize
          || (waiting[k].inst.barIssue && occupied + k > 0)
          || (k > 0 && waiting[k - 1].inst.barIssue))
  }

  lemma {:induction false} IssueCountIs(tableSize: nat, occupied: nat, waiting: seq<Op>)
    ensures TakesExactly(tableSize, occupied, waiting, IssueCount(occupied, waiting, tableSize))
    decreases |waiting|
  {
    if waiting != [] && occupied < tableSize && !waiting[0].inst.barIssue {
      IssueCountIs(tableSize, occupied + 1, waiting[1..]);
      var k, k1 := IssueCount(occupied, waiting, tableSize), IssueCount(occupied + 1, waiting[1..], tableSize);
      assert forall i :: 0 < i < k ==> waiting[i] == waiting[1..][i - 1];
      assert k < |waiting| ==> waiting[k] == waiting[1..][k1];
      assert k1 > 0 ==> waiting[k - 1] == waiting[1..][k1 - 1];
    }
  }

  /** Slots are emptied or left alone. */
  ghost predicate OnlyEmptied(ops: seq<Option<Op>>, after: seq<Option<Op>>) {
    |after| == |ops| && forall i :: 0 <= i < |ops| ==> after[i] == ops[i] || after[i] == None
  }

  lemma {:induction false} DrainEmpties(ops: seq<Option<Op>>, k: nat)
    ensures OnlyEmptied(ops, Drain(ops, k))
  {
    if ops != [] && k != 0 {
      var k1 := if ops[0].Some? then k - 1 else k;
      DrainEmpties(ops[1..], k1);
      assert forall i :: 0 < i < |ops| ==> Drain(ops, k)[i] == Drain(ops[1..], k1)[i - 1] && ops[i] == ops[1..][i - 1];
    }
  }

  /** What node_issue does to table and last map stage. */
  ghost predicate IssuedOps(tableSize: nat, node: seq<Op>, src: Stage, after: seq<Op>, srcAfter: Stage, k: nat) {
    && TakesExactly(tableSize, |node|, Live(src.ops), k)
    && after == node + Live(src.ops)[..k] && Live(srcAfter.ops) == Live(src.ops)[k..]
    && srcAfter.count == src.count - k && OnlyEmptied(src.ops, srcAfter.ops)
  }

  lemma IssueTakes(c: Config, p: Pipe) returns (k: nat)
    requires Inv(c, p)
    ensures var q := Step(c, p, Issue);
      && q.mapPipe != [] && q.mapPipe[1..] == p.mapPipe[1..]
      && IssuedOps(c.nodeTableSize, p.node, p.mapPipe[0], q.node, q.mapPipe[0], k)
  {
    var waiting := Live(p.mapPipe[0].ops);
    k := IssueCount(|p.node|, waiting, c.nodeTableSize);
    IssueCountIs(c.nodeTableSize, |p.node|, waiting);
    DrainLive(p.mapPipe[0].ops, k);
    DrainEmpties(p.mapPipe[0].ops, k);
  }

  // ----- execution and retirement

  /** A latched op counts as executed; if its next address was wrong, a recovery at least as old is pending,
      and an op of the correct path may not retire before it. */
  lemma ExecuteDetects(c: Config, p: Pipe, op: Op)
    requires Inv(c, p) && Enabled(c, p, Exec(op))
    ensures var q := Step(c, p, Exec(op));
      && (forall s :: s in q.executed <==> s in p.executed || s == op.slot)
      && (op.inst.mispred ==> q.pending.Some? && q.pending.value.num <= op.num)
      && (op.inst.mispred && !op.offPath ==> op.slot in q.recSched)
      && (!op.inst.mispred ==> q.pending == p.pending && q.recSched == p.recSched)
      && (q.pending == p.pending || q.pending == Some(op))
  {
  }

  /** The head retires exactly when it has finished, is on the correct path, and waits for no recovery. */
  lemma RetiredHadFinished(c: Config, p: Pipe)
    requires Inv(c, p)
    ensures Enabled(c, p, Retire) <==>
      p.node != [] && p.node[0].slot in p.finished && !p.node[0].offPath && p.node[0].slot !in p.recSched
    ensures Enabled(c, p, Retire) ==> p.node[0].slot in p.executed
  {
    assert p.node != [] ==> p.node[0] == p.seqOps[0];
  }

  /** k ops have left from the head, no more than the width, each of them retirable; and if the width was not
      used up, the op now at the head is not. */
  ghost predicate RetiredOps(node: seq<Op>, finished: set<Slot>, recSched: set<Slot>, width: nat, after: seq<Op>,
                             k: nat) {
    && k <= width && k <= |node| && after == node[k..]
    && (forall i :: 0 <= i < k ==> node[i].slot in finished && !node[i].offPath && node[i].slot !in recSched)
    && (k < width && after != [] ==>
          after[0].slot !in finished || after[0].offPath || after[0].slot in recSched)
  }

  /** Their slots are free again, and those of no other op. */
  ghost predicate SlotsFreed(before: Pool, ops: seq<Op>, after: Pool) {
    && after.active + |ops| == before.active
    && forall s :: InUse(after, s) <==> InUse(before, s) && s !in Slots(ops)
  }
}
