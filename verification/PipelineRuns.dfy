/** Runs of the pipeline: what holds in every state it can reach. */
module PipelineRuns {
  import opened Ops
  import opened OpPool
  import opened Stages
  import opened Pipeline
  import opened PipelineSteps

  /** The machine just after init: empty stages, op and unique numbers starting at 1. */
  function Init(c: Config, decodeDepth: nat, mapDepth: nat): Pipe {
    var empty := Stage(NullOps(c.issueWidth), 0);
    Pipe(EmptyPool, [], empty, seq(decodeDepth, i => empty), seq(mapDepth, i => empty), [],
         1, 1, 1, false, false, None, {}, {}, {}, {}, [], [])
  }

  lemma InitInv(c: Config, decodeDepth: nat, mapDepth: nat)
    requires decodeDepth > 0 && mapDepth > 0
    ensures Inv(c, Init(c, decodeDepth, mapDepth))
  {
    var p := Init(c, decodeDepth, mapDepth);
    LiveEmpty(p.ic.ops);
    EmptyFlat(p.decPipe, p.ic);
    EmptyFlat(p.mapPipe, p.ic);
  }

  function Step(c: Config, p: Pipe, e: Event): (q: Pipe)
    requires Inv(c, p) && Enabled(c, p, e)
  {
    match e
    case BeginFetch => FetchBegin(p)
    case FetchOp(Take(inst)) => FetchOne(p, inst)
    case FetchOp(_) => FetchAbort(p)
    case Decode => DecodeCycle(p)
    case MapOps => MapCycle(p)
    case Issue => IssueCycle(c, p)
    case Exec(op) => Execute(p, op)
    case Finish(op) => p.(finished := p.finished + {op.slot})
    case Retire => RetireKeepsInv(c, p); RetireOne(p)
    case Recovery => RecoverKeepsInv(c, p); Recover(p)
  }

  /** The global invariant survives every step, in any order of the stages. */
  lemma StepKeepsInv(c: Config, p: Pipe, e: Event)
    requires Inv(c, p) && Enabled(c, p, e)
    ensures Inv(c, Step(c, p, e))
  {
    match e
    case BeginFetch => BeginFetchKeepsInv(c, p);
    case FetchOp(f) =>
      match f {
        case Take(inst) => FetchKeepsInv(c, p, inst);
        case _ => FetchAbortKeepsInv(c, p);
      }
    case Decode => DecodeKeepsInv(c, p);
    case MapOps => MapKeepsInv(c, p);
    case Issue => IssueKeepsInv(c, p);
    case Exec(op) => ExecuteKeepsInv(c, p, op);
    case Finish(op) => FinishKeepsInv(c, p, op);
    case Retire => RetireKeepsInv(c, p);
    case Recovery => RecoverKeepsInv(c, p);
  }

  /** A run: every event is enabled when it happens; `end` is where the run arrives. */
  ghost predicate Reaches(c: Config, p: Pipe, es: seq<Event>, end: Pipe)
    requires Inv(c, p)
    decreases |es|
  {
    if es == [] then p == end
    else
      && Enabled(c, p, es[0])
      && (StepKeepsInv(c, p, es[0]); Reaches(c, Step(c, p, es[0]), es[1..], end))
  }

  ghost predicate Reachable(c: Config, decodeDepth: nat, mapDepth: nat, es: seq<Event>, p: Pipe)
    requires decodeDepth > 0 && mapDepth > 0
  {
    InitInv(c, decodeDepth, mapDepth);
    Reaches(c, Init(c, decodeDepth, mapDepth), es, p)
  }

  lemma {:induction false} RunKeepsInv(c: Config, p: Pipe, es: seq<Event>, end: Pipe)
    requires Inv(c, p) && Reaches(c, p, es, end)
    ensures Inv(c, end)
    decreases |es|
  {
    if es != [] {
      StepKeepsInv(c, p, es[0]);
      RunKeepsInv(c, Step(c, p, es[0]), es[1..], end);
    }
  }

  /** In every reachable state the places partition the sequential list, in order, and the numbers run
      from ret_op to op_count - 1. */
  lemma StagesPartitionSeqOpList(c: Config, decodeDepth: nat, mapDepth: nat, es: seq<Event>, p: Pipe)
    requires decodeDepth > 0 && mapDepth > 0 && Reachable(c, decodeDepth, mapDepth, es, p)
    ensures p.seqOps == p.node + Flat(p.mapPipe) + Flat(p.decPipe) + Live(p.ic.ops)
    ensures forall i :: 0 <= i < |p.seqOps| ==> p.seqOps[i].num == p.retOp + i
    ensures p.opCount == p.retOp + |p.seqOps|
    ensures OffPathSuffix(p.seqOps)
  {
    InitInv(c, decodeDepth, mapDepth);
    RunKeepsInv(c, Init(c, decodeDepth, mapDepth), es, p);
  }

  /** Retired ops are numbered 1, 2, 3, ... without gap or repeat and all belong to the correct path. */
  lemma RetirementInOrder(c: Config, decodeDepth: nat, mapDepth: nat, es: seq<Event>, p: Pipe)
    requires decodeDepth > 0 && mapDepth > 0 && Reachable(c, decodeDepth, mapDepth, es, p)
    ensures p.retOp == |p.retired| + 1
    ensures forall i :: 0 <= i < |p.retired| ==> p.retired[i].num == i + 1 && !p.retired[i].offPath
    ensures forall i, j :: 0 <= i < j < |p.retired| ==> p.retired[i].unique < p.retired[j].unique
  {
    InitInv(c, decodeDepth, mapDepth);
    RunKeepsInv(c, Init(c, decodeDepth, mapDepth), es, p);
    assert forall i :: 0 <= i < |p.retired| ==> p.retired[i] == (p.retired + p.seqOps)[i];
  }

  /** Pool conservation: allocated slots are exactly those of the ops in flight, free slots the rest. */
  lemma OpsConserved(c: Config, decodeDepth: nat, mapDepth: nat, es: seq<Event>, p: Pipe)
    requires decodeDepth > 0 && mapDepth > 0 && Reachable(c, decodeDepth, mapDepth, es, p)
    ensures |p.pool.free| + p.pool.active == |p.pool.valid| && p.pool.active == |p.seqOps|
    ensures forall s :: InUse(p.pool, s) <==> s in Slots(p.seqOps)
  {
    InitInv(c, decodeDepth, mapDepth);
    RunKeepsInv(c, Init(c, decodeDepth, mapDepth), es, p);
  }

  /** A recovery cuts the window behind the recovering op; everything it removes is of the wrong path,
      and when the recovering op is not, nothing of the wrong path is left and fetch is back on path. */
  lemma RecoveryCutsWrongPath(c: Config, p: Pipe, q: Pipe)
    requires Inv(c, p) && Enabled(c, p, Recovery) && q == Step(c, p, Recovery)
    ensures q.seqOps == Kept(p.seqOps, p.pending.value.num) && p.pending.value in q.seqOps
    ensures forall i :: 0 <= i < |p.seqOps| && p.seqOps[i].num > p.pending.value.num ==> p.seqOps[i].offPath
    ensures !p.pending.value.offPath ==> OnPathNow(q) && forall i :: 0 <= i < |q.seqOps| ==> !q.seqOps[i].offPath
  {
    var b := p.pending.value;
    var k := RecoveryCut(c, p);
    RecoveredFields(c, p, q);
    CutLeavesOnPath(p, q, k);
  }

  lemma RecoveredFields(c: Config, p: Pipe, q: Pipe)
    requires Inv(c, p) && Enabled(c, p, Recovery) && q == Step(c, p, Recovery)
    ensures q.backOnPath == !p.pending.value.offPath
    ensures q.seqOps == Kept(p.seqOps, p.pending.value.num)
    ensures q.seqOps == p.seqOps[..Survivors(|p.seqOps|, p.retOp, p.pending.value.num)]
  {
    ClipIsKept(p.seqOps, p.retOp, p.pending.value.num);
    KeptIsPrefix(p.seqOps, p.retOp, p.pending.value.num);
  }

  lemma CutLeavesOnPath(p: Pipe, q: Pipe, k: nat)
    requires Numbering(p) && OffPathSuffix(p.seqOps) && p.pending.Some? && 0 < k <= |p.seqOps|
    requires p.seqOps[k - 1] == p.pending.value && q.seqOps == p.seqOps[..k] && q.backOnPath == !p.pending.value.offPath
    requires forall i :: k <= i < |p.seqOps| ==> p.seqOps[i].offPath
    ensures p.pending.value in q.seqOps
    ensures forall i :: 0 <= i < |p.seqOps| && p.seqOps[i].num > p.pending.value.num ==> p.seqOps[i].offPath
    ensures !p.pending.value.offPath ==> OnPathNow(q) && forall i :: 0 <= i < |q.seqOps| ==> !q.seqOps[i].offPath
  {
    assert q.seqOps[k - 1] == p.pending.value;
  }

  /** Each clipped op is freed, exactly once, and no other op is. */
  lemma RecoveryFreesClippedOps(c: Config, p: Pipe, q: Pipe)
    requires Inv(c, p) && Enabled(c, p, Recovery) && q == Step(c, p, Recovery)
    ensures q.pool.active + |Flushed(p.seqOps, p.pending.value.num)| == p.pool.active
    ensures |q.pool.valid| == |p.pool.valid|
    ensures forall s :: InUse(q.pool, s) <==> InUse(p.pool, s) && s !in Slots(Flushed(p.seqOps, p.pending.value.num))
  {
    var order := FlushOrder(p, p.pending.value.num);
    FlushOrderInUse(c, p);
    FreeAllConserves(p.pool, order);
    RecoveredPool(c, p, q);
  }

  lemma RecoveredPool(c: Config, p: Pipe, q: Pipe)
    requires Inv(c, p) && Enabled(c, p, Recovery) && q == Step(c, p, Recovery)
    ensures AllInUse(p.pool, FlushOrder(p, p.pending.value.num))
    ensures q.pool == FreeAll(p.pool, FlushOrder(p, p.pending.value.num))
  {
    RecoverKeepsInv(c, p);
  }

  /** A mispredict that has been detected stays covered: the pending recovery is at least as old. And an
      op kept from retiring by recovery_scheduled is the very op the pending recovery will release. */
  lemma NoRecoveryForgotten(c: Config, p: Pipe, op: Op)
    requires Inv(c, p) && op in p.node
    ensures op.slot in p.executed && Unresolved(p, op) ==> p.pending.Some? && p.pending.value.num <= op.num
    ensures op.slot in p.recSched ==> p.pending == Some(op) && op.slot !in Step(c, p, Recovery).recSched
  {
    var i := IndexOf(p.node, op);
    assert p.seqOps[i] == op;
  }

  /** At retirement a mispredicted branch has had its recovery. */
  lemma RetiredBranchesRecovered(c: Config, p: Pipe)
    requires Inv(c, p) && Enabled(c, p, Retire)
    ensures p.node[0].inst.mispred ==> p.node[0].slot in p.recovered
    ensures Step(c, p, Retire).retired == p.retired + [p.seqOps[0]] && p.seqOps[0].num == p.retOp
  {
    RetireAssertionsHold(c, p);
  }

  /** Each op in flight has been linked at most once: linking appends ops that were not linked yet. */
  lemma LinkedExactlyOnce(c: Config, p: Pipe)
    requires Inv(c, p)
    ensures DistinctSlots(p.linked) && p.linked <= p.seqOps
    ensures forall op :: op in p.linked <==> op in p.node || op in Live(p.mapPipe[0].ops)
  {
    FlatHead(p.mapPipe);
    SeqAssoc(p.node, Live(p.mapPipe[0].ops), Flat(p.mapPipe[1..]));
    assert p.linked <= p.node + Flat(p.mapPipe);
    assert p.linked <= p.seqOps;
    assert forall i :: 0 <= i < |p.linked| ==> p.linked[i] == p.seqOps[i];
  }
}
