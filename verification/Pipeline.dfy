/** The speculative pipeline as a state machine: fetch, decode, map, node table, retirement, recovery
    (icache_stage.c, decode_stage.c, map_stage.c, node_stage.c, thread.c, bp.c, cmp_model.c). */
module Pipeline {
  import opened Ops
  import opened OpPool
  import opened Stages

  datatype Config = Config(issueWidth: nat, nodeTableSize: nat, nodeRetWidth: nat)

  datatype Pipe = Pipe(
    pool: Pool,
    seqOps: seq<Op>,         // td->seq_op_list
    ic: Stage,               // ic->sd
    decPipe: seq<Stage>,     // dec->sds, index 0 is last_sd
    mapPipe: seq<Stage>,     // map->sds, index 0 is last_sd
    node: seq<Op>,           // the node list from node_head
    opCount: nat,            // op_count
    uniqueCount: nat,        // unique_count
    retOp: nat,              // node->ret_op
    offPath: bool,           // ic->off_path
    backOnPath: bool,        // ic->back_on_path
    pending: Option<Op>,     // bp_recovery_info->recovery_op while recovery_cycle != MAX_CTR
    executed: set<Slot>,     // ops latched by a functional unit
    finished: set<Slot>,     // OS_DONE || OP_DONE
    recSched: set<Slot>,     // op->recovery_scheduled
    recovered: set<Slot>,    // history: ops whose recovery has been carried out
    linked: seq<Op>,         // history: ops in flight that went through add_to_wake_up_lists
    retired: seq<Op>)        // history: all ops retired, oldest first

  // ----- fetch: update_icache_stage / icache_issue_ops

  /** One turn of the fetch loop: the front end has nothing and the new op still holds what its slot's
      last user left there, the packet must break before the op, or the op is taken. */
  datatype Fetch = Stop(stale: Inst) | BreakBefore(inst: Inst) | Take(inst: Inst)

  function FetchedOp(p: Pipe, inst: Inst): Op {
    Op(NextSlot(p.pool), p.opCount, p.uniqueCount, p.offPath, inst)
  }

  function FetchOne(p: Pipe, inst: Inst): Pipe
    requires PoolInv(p.pool) && p.ic.count < |p.ic.ops|
  {
    var op := FetchedOp(p, inst);
    p.(pool := Alloc(p.pool),
       seqOps := p.seqOps + [op],
       ic := Stage(p.ic.ops[p.ic.count := Some(op)], p.ic.count + 1),
       opCount := p.opCount + 1,
       uniqueCount := p.uniqueCount + 1,
       offPath := p.offPath || inst.mispred,
       executed := p.executed - {op.slot},
       finished := p.finished - {op.slot},
       recSched := p.recSched - {op.slot},
       recovered := p.recovered - {op.slot})
  }

  /** The start of the IC_FETCH case. */
  function FetchBegin(p: Pipe): Pipe {
    p.(offPath := p.offPath && !p.backOnPath, backOnPath := false)
  }

  /** An op is allocated and put back: alloc_op then free_op. */
  function FetchAbort(p: Pipe): Pipe
    requires PoolInv(p.pool)
  {
    AllocFreeIsStocked(p.pool);
    p.(pool := Free(Alloc(p.pool), NextSlot(p.pool)))
  }

  // ----- node table: node_issue, node_retire

  /** How many of the waiting ops node_issue accepts: until the table is full or a synchronizing op
      has to wait for an empty table or ends the group. */
  function IssueCount(occupied: nat, waiting: seq<Op>, tableSize: nat): (k: nat)
    ensures k <= |waiting| && (occupied <= tableSize ==> occupied + k <= tableSize)
    decreases |waiting|
  {
    if waiting == [] || occupied == tableSize then 0
    else if waiting[0].inst.barIssue then (if occupied > 0 then 0 else 1)
    else if occupied > tableSize then 0
    else 1 + IssueCount(occupied + 1, waiting[1..], tableSize)
  }

  /** Clears the first k occupied slots. */
  function Drain(ops: seq<Option<Op>>, k: nat): (out: seq<Option<Op>>)
    ensures |out| == |ops|
  {
    if ops == [] || k == 0 then ops
    else if ops[0].Some? then [None] + Drain(ops[1..], k - 1)
    else [ops[0]] + Drain(ops[1..], k)
  }

  predicate ReadyToRetire(p: Pipe, op: Op) {
    op.slot in p.finished && !op.offPath && op.slot !in p.recSched
  }

  function RetireOne(p: Pipe): Pipe
    requires p.node != [] && p.seqOps != [] && PoolInv(p.pool) && InUse(p.pool, p.node[0].slot)
  {
    p.(pool := Free(p.pool, p.node[0].slot),
       seqOps := p.seqOps[1..],
       node := p.node[1..],
       linked := if p.linked == [] then [] else p.linked[1..],
       retOp := p.retOp + 1,
       retired := p.retired + [p.node[0]])
  }

  // ----- recovery

  /** recover_seq_op_list */
  function RecoverSeqOpList(ops: seq<Op>, r: nat): seq<Op> {
    if ops != [] && ops[0].num > r then [] else ClipAt(ops, r)
  }

  /** clip_list_at_current at the op numbered r; the list is left alone when there is none. */
  function ClipAt(ops: seq<Op>, r: nat): seq<Op> {
    if ops == [] then []
    else if ops[0].num == r then [ops[0]]
    else [ops[0]] + ClipAt(ops[1..], r)
  }

  lemma {:induction false} ClipIsKept(ops: seq<Op>, first: nat, r: nat)
    requires Consecutive(ops, first)
    ensures RecoverSeqOpList(ops, r) == Kept(ops, r)
    ensures first <= r ==> ClipAt(ops, r) == Kept(ops, r)
  {
    KeptIsPrefix(ops, first, r);
    if ops != [] && first <= r {
      assert ops[0].num == first;
      assert Consecutive(ops[1..], first + 1);
      if first == r {
        assert ops[..1] == [ops[0]];
      } else {
        ClipIsKept(ops[1..], first + 1, r);
      }
    }
  }

  /** What the four flushes hand to free_op, in the order of cmp_recover. */
  function FlushOrder(p: Pipe, r: nat): seq<Op> {
    Flushed(Live(p.ic.ops), r) + Flushed(Flat(p.decPipe), r) + Flushed(Flat(p.mapPipe), r) + Flushed(p.node, r)
  }

  /** cmp_recover */
  function Recover(p: Pipe): Pipe
    requires p.pending.Some? && PoolInv(p.pool) && AllInUse(p.pool, FlushOrder(p, p.pending.value.num))
  {
    var b := p.pending.value;
    p.(seqOps := RecoverSeqOpList(p.seqOps, b.num),
       ic := KeepStage(p.ic, b.num),
       backOnPath := !b.offPath,
       opCount := b.num + 1,
       decPipe := KeepAll(p.decPipe, b.num),
       mapPipe := CollapseAll(p.mapPipe, b.num),
       node := Kept(p.node, b.num),
       pool := FreeAll(p.pool, FlushOrder(p, b.num)),
       pending := None,
       recSched := p.recSched - {b.slot},
       recovered := p.recovered + {b.slot},
       linked := Kept(p.linked, b.num))
  }

  // ----- the remaining steps

  function DecodeCycle(p: Pipe): Pipe
    requires p.decPipe != []
  {
    var all := Shift(p.decPipe + [p.ic]);
    p.(decPipe := all[..|p.decPipe|], ic := all[|p.decPipe|])
  }

  /** update_map_stage: ops reaching the last map stage are linked, unless it was already occupied. */
  function MapCycle(p: Pipe): Pipe
    requires p.mapPipe != [] && p.decPipe != []
  {
    var all := Shift(p.mapPipe + [p.decPipe[0]]);
    p.(mapPipe := all[..|p.mapPipe|],
       decPipe := p.decPipe[0 := all[|p.mapPipe|]],
       linked := if p.mapPipe[0].count > 0 then p.linked else p.linked + Live(all[0].ops))
  }

  function IssueCycle(c: Config, p: Pipe): Pipe
    requires p.mapPipe != []
  {
    var waiting := Live(p.mapPipe[0].ops);
    var k := IssueCount(|p.node|, waiting, c.nodeTableSize);
    var last := p.mapPipe[0];
    p.(mapPipe := p.mapPipe[0 := Stage(Drain(last.ops, k), if last.count < k then 0 else last.count - k)],
       node := p.node + waiting[..k])
  }

  /** bp_sched_recovery: an older recovery replaces a younger one, never the other way round. */
  function SchedRecovery(pending: Option<Op>, op: Op): Option<Op> {
    if pending.None? || op.num <= pending.value.num then Some(op) else pending
  }

  /** An op is latched by its functional unit (update_exec_stage); a mispredict schedules its recovery. */
  function Execute(p: Pipe, op: Op): Pipe {
    if op.inst.mispred then
      p.(executed := p.executed + {op.slot},
         pending := SchedRecovery(p.pending, op),
         recSched := if op.offPath then p.recSched else p.recSched + {op.slot})
    else p.(executed := p.executed + {op.slot})
  }

  datatype Event =
    | BeginFetch
    | FetchOp(fetch: Fetch)
    | Decode
    | MapOps
    | Issue
    | Exec(op: Op)
    | Finish(op: Op)
    | Retire
    | Recovery

  /** When the code performs a step; its own assertions are not among the guards. */
  predicate Enabled(c: Config, p: Pipe, e: Event) {
    match e
    case BeginFetch => p.ic.count == 0
    case FetchOp(_) => !p.backOnPath && p.ic.count < c.issueWidth
    case Exec(op) => op in p.node && op.slot !in p.executed
    case Finish(op) => op in p.node && op.slot in p.executed
    case Retire => p.node != [] && ReadyToRetire(p, p.node[0])
    case Recovery => p.pending.Some?
    case _ => true
  }

  // ----- the invariant

  ghost predicate Shape(c: Config, p: Pipe) {
    && Compact(p.ic, c.issueWidth)
    && p.decPipe != [] && AllCompact(p.decPipe, c.issueWidth)
    && PipeOk(p.mapPipe, c.issueWidth)
    && |p.node| <= c.nodeTableSize
  }

  /** Every op in flight is in exactly one place, and the places in order spell out the sequential list. */
  ghost predicate Partition(p: Pipe) {
    p.seqOps == p.node + Flat(p.mapPipe) + Flat(p.decPipe) + Live(p.ic.ops)
  }

  ghost predicate Numbering(p: Pipe) {
    && Consecutive(p.retired, 1) && p.retOp == |p.retired| + 1
    && Consecutive(p.seqOps, p.retOp) && p.opCount == p.retOp + |p.seqOps|
  }

  /** The slots in use are the slots of the ops in flight. */
  ghost predicate Pooling(p: Pipe) {
    && PoolInv(p.pool) && DistinctSlots(p.seqOps) && p.pool.active == |p.seqOps|
    && forall s :: InUse(p.pool, s) <==> s in Slots(p.seqOps)
  }

  ghost predicate UniqueNumbers(p: Pipe) {
    && IncreasingUniques(p.retired + p.seqOps)
    && forall i :: 0 <= i < |p.retired + p.seqOps| ==> (p.retired + p.seqOps)[i].unique < p.uniqueCount
  }

  predicate OnPathNow(p: Pipe) {
    !p.offPath || p.backOnPath
  }

  predicate Unresolved(p: Pipe, op: Op) {
    op.inst.mispred && op.slot !in p.recovered
  }

  ghost predicate Paths(p: Pipe) {
    && OffPathSuffix(p.seqOps)
    && (OnPathNow(p) ==> forall i :: 0 <= i < |p.seqOps| ==> !p.seqOps[i].offPath && !Unresolved(p, p.seqOps[i]))
    && (forall i, j :: 0 <= i < j < |p.seqOps| && Unresolved(p, p.seqOps[i]) ==> p.seqOps[j].offPath)
    && forall i :: 0 <= i < |p.retired| ==> !p.retired[i].offPath
  }

  ghost predicate Recoveries(p: Pipe) {
    && (p.pending.Some? ==>
          var b := p.pending.value;
          && b in p.node && Unresolved(p, b) && b.slot in p.executed
          && (!b.offPath ==> b.slot in p.recSched))
    && (forall i :: 0 <= i < |p.seqOps| && p.seqOps[i].slot in p.recSched ==>
          !p.seqOps[i].offPath && p.pending == Some(p.seqOps[i]))
    && (forall i :: 0 <= i < |p.node| && p.node[i].slot in p.executed && Unresolved(p, p.node[i]) ==>
          p.pending.Some? && p.pending.value.num <= p.node[i].num)
    && (forall i :: |p.node| <= i < |p.seqOps| ==> p.seqOps[i].slot !in p.executed)
    && (forall i :: 0 <= i < |p.seqOps| && (p.seqOps[i].slot in p.finished || p.seqOps[i].slot in p.recovered) ==>
          p.seqOps[i].slot in p.executed)
  }

  ghost predicate Links(p: Pipe) {
    p.mapPipe != [] && p.linked == p.node + Live(p.mapPipe[0].ops)
  }

  ghost predicate Inv(c: Config, p: Pipe) {
    && Shape(c, p) && Partition(p) && Numbering(p) && Pooling(p) && UniqueNumbers(p) && Paths(p)
    && Recoveries(p) && Links(p)
  }
}
