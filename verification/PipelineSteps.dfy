/** Each step of the pipeline keeps the invariant. */
module PipelineSteps {
  import opened Ops
  import opened OpPool
  import opened Stages
  import opened Pipeline

  // ----- fetch

  lemma BeginFetchKeepsInv(c: Config, p: Pipe)
    requires Inv(c, p)
    ensures Inv(c, FetchBegin(p))
  {
  }

  lemma FetchAbortKeepsInv(c: Config, p: Pipe)
    requires Inv(c, p)
    ensures Inv(c, FetchAbort(p))
  {
    AllocFreeIsStocked(p.pool);
    ExpandKeepsInv(p.pool);
  }

  lemma StoreNext(st: Stage, width: nat, op: Op)
    requires Compact(st, width) && st.count < width
    ensures Compact(Stage(st.ops[st.count := Some(op)], st.count + 1), width)
    ensures Live(st.ops[st.count := Some(op)]) == Live(st.ops) + [op]
  {
    var next := Stage(st.ops[st.count := Some(op)], st.count + 1);
    CompactLive(st, width);
    CompactLive(next, width);
    assert Live(next.ops) == Live(st.ops) + [op];
  }

  lemma FetchKeepsPooling(p: Pipe, inst: Inst)
    requires Pooling(p) && p.ic.count < |p.ic.ops|
    ensures Pooling(FetchOne(p, inst))
    ensures FetchedOp(p, inst).slot !in Slots(p.seqOps)
  {
    AllocTakesFreshSlot(p.pool);
    var op, q := FetchedOp(p, inst), FetchOne(p, inst);
    assert Slots(q.seqOps) == Slots(p.seqOps) + [op.slot];
    assert forall i :: 0 <= i < |p.seqOps| ==> p.seqOps[i].slot == Slots(p.seqOps)[i];
  }

  lemma FetchKeepsPaths(p: Pipe, inst: Inst)
    requires Paths(p) && !p.backOnPath && PoolInv(p.pool) && p.ic.count < |p.ic.ops|
    requires FetchedOp(p, inst).slot !in Slots(p.seqOps)
    ensures Paths(FetchOne(p, inst))
  {
    var op, q := FetchedOp(p, inst), FetchOne(p, inst);
    forall i | 0 <= i < |p.seqOps| ensures q.seqOps[i] == p.seqOps[i] && q.seqOps[i].slot != op.slot {
      assert Slots(p.seqOps)[i] == p.seqOps[i].slot;
    }
    assert forall i :: 0 <= i < |p.seqOps| ==> Unresolved(q, p.seqOps[i]) == Unresolved(p, p.seqOps[i]);
  }

  lemma FetchKeepsRecoveries(p: Pipe, inst: Inst)
    requires Recoveries(p) && Partition(p) && PoolInv(p.pool) && p.ic.count < |p.ic.ops|
    requires FetchedOp(p, inst).slot !in Slots(p.seqOps)
    ensures Recoveries(FetchOne(p, inst))
  {
    var op, q := FetchedOp(p, inst), FetchOne(p, inst);
    forall i | 0 <= i < |p.seqOps| ensures q.seqOps[i] == p.seqOps[i] && q.seqOps[i].slot != op.slot {
      assert Slots(p.seqOps)[i] == p.seqOps[i].slot;
    }
    assert forall i :: 0 <= i < |p.node| ==> p.node[i] == p.seqOps[i];
  }

  lemma FetchKeepsInv(c: Config, p: Pipe, inst: Inst)
    requires Inv(c, p) && !p.backOnPath && p.ic.count < c.issueWidth
    ensures Inv(c, FetchOne(p, inst))
  {
    var op, q := FetchedOp(p, inst), FetchOne(p, inst);
    StoreNext(p.ic, c.issueWidth, op);
    FetchKeepsPooling(p, inst);
    FetchKeepsPaths(p, inst);
    FetchKeepsRecoveries(p, inst);
    assert Partition(q);
    assert q.retired + q.seqOps == (p.retired + p.seqOps) + [op];
  }

  // ----- decode and map

  lemma AllCompactOk(sds: seq<Stage>, width: nat)
    requires AllCompact(sds, width) && sds != []
    ensures PipeOk(sds, width)
  {
    CompactLive(sds[0], width);
  }

  lemma FlatSnoc(sds: seq<Stage>, st: Stage)
    ensures Flat(sds + [st]) == Flat(sds) + Live(st.ops)
  {
    FlatConcat(sds, [st]);
    assert [st][1..] == [];
    assert Flat([st]) == Live(st.ops) + Flat([]);
    assert Flat([st]) == Live(st.ops);
  }

  /** Steps that only move ops from one place to the next: what is left to show is where they end up. */
  lemma MoveKeepsInv(c: Config, p: Pipe, q: Pipe)
    requires Inv(c, p)
    requires q == p.(ic := q.ic, decPipe := q.decPipe, mapPipe := q.mapPipe, node := q.node, linked := q.linked)
    requires Shape(c, q) && Partition(q) && Links(q) && |p.node| <= |q.node|
    ensures Inv(c, q)
  {
    assert forall i :: 0 <= i < |q.node| ==> q.node[i] == q.seqOps[i];
    assert forall i :: 0 <= i < |p.node| ==> p.node[i] == q.node[i];
    MoveKeepsRecoveries(p, q);
  }

  lemma MoveKeepsRecoveries(p: Pipe, q: Pipe)
    requires Recoveries(p)
    requires q == p.(ic := q.ic, decPipe := q.decPipe, mapPipe := q.mapPipe, node := q.node, linked := q.linked)
    requires |p.node| <= |q.node| <= |q.seqOps|
    requires forall i :: 0 <= i < |q.node| ==> q.node[i] == q.seqOps[i]
    requires forall i :: 0 <= i < |p.node| ==> p.node[i] == q.node[i]
    ensures Recoveries(q)
  {
    assert forall op :: op in p.node ==> op in q.node;
  }

  lemma FlatHead(sds: seq<Stage>)
    requires sds != []
    ensures Flat(sds) == Live(sds[0].ops) + Flat(sds[1..])
  {
  }

  lemma DecodePlaces(c: Config, p: Pipe)
    requires p.decPipe != [] && AllCompact(p.decPipe, c.issueWidth) && Compact(p.ic, c.issueWidth)
    ensures var q := DecodeCycle(p);
      && q.decPipe != [] && AllCompact(q.decPipe, c.issueWidth) && Compact(q.ic, c.issueWidth)
      && Flat(q.decPipe) + Live(q.ic.ops) == Flat(p.decPipe) + Live(p.ic.ops)
  {
    var sds, n := p.decPipe + [p.ic], |p.decPipe|;
    var all, q := Shift(sds), DecodeCycle(p);
    AllCompactOk(sds, c.issueWidth);
    ShiftKeepsOrder(sds, c.issueWidth);
    ShiftKeepsCompact(sds, c.issueWidth);
    assert all == q.decPipe + [q.ic];
    FlatSnoc(p.decPipe, p.ic);
    FlatSnoc(q.decPipe, q.ic);
    assert forall i :: 0 <= i < n ==> q.decPipe[i] == all[i];
    assert q.ic == all[n];
  }

  lemma DecodeKeepsInv(c: Config, p: Pipe)
    requires Inv(c, p)
    ensures Inv(c, DecodeCycle(p))
  {
    var q := DecodeCycle(p);
    DecodePlaces(c, p);
    SeqAssoc(p.node + Flat(p.mapPipe), Flat(p.decPipe), Live(p.ic.ops));
    SeqAssoc(p.node + Flat(p.mapPipe), Flat(q.decPipe), Live(q.ic.ops));
    MoveKeepsInv(c, p, q);
  }

  lemma SeqAssoc(a: seq<Op>, b: seq<Op>, c: seq<Op>)
    ensures a + b + c == a + (b + c)
  {
  }

  lemma MapSplit(p: Pipe, width: nat)
    requires p.decPipe != [] && AllCompact(p.decPipe, width) && PipeOk(p.mapPipe, width)
    ensures var q, sds := MapCycle(p), p.mapPipe + [p.decPipe[0]];
      && q.decPipe != [] && q.mapPipe != [] && PipeOk(sds, width)
      && Shift(sds) == q.mapPipe + [q.decPipe[0]] && q.decPipe[1..] == p.decPipe[1..]
  {
    var sds, q := p.mapPipe + [p.decPipe[0]], MapCycle(p);
    assert sds[1..] == p.mapPipe[1..] + [p.decPipe[0]];
    assert Shift(sds) == q.mapPipe + [q.decPipe[0]];
  }

  lemma MapShape(p: Pipe, width: nat)
    requires p.decPipe != [] && AllCompact(p.decPipe, width) && PipeOk(p.mapPipe, width)
    ensures var q := MapCycle(p);
      q.decPipe != [] && AllCompact(q.decPipe, width) && PipeOk(q.mapPipe, width)
  {
    var sds, q, n := p.mapPipe + [p.decPipe[0]], MapCycle(p), |p.mapPipe|;
    MapSplit(p, width);
    ShiftKeepsOrder(sds, width);
    var tail := Shift(sds)[1..];
    assert forall i :: 0 <= i < n - 1 ==> q.mapPipe[1..][i] == tail[i];
    assert q.decPipe[0] == tail[n - 1];
    assert forall i :: 1 <= i < |q.decPipe| ==> q.decPipe[i] == p.decPipe[i];
  }

  lemma MapOrder(p: Pipe, width: nat)
    requires p.decPipe != [] && AllCompact(p.decPipe, width) && PipeOk(p.mapPipe, width)
    ensures var q := MapCycle(p);
      q.decPipe != [] && Flat(q.mapPipe) + Flat(q.decPipe) == Flat(p.mapPipe) + Flat(p.decPipe)
  {
    var sds, q := p.mapPipe + [p.decPipe[0]], MapCycle(p);
    MapSplit(p, width);
    ShiftKeepsOrder(sds, width);
    FlatSnoc(p.mapPipe, p.decPipe[0]);
    FlatSnoc(q.mapPipe, q.decPipe[0]);
    FlatHead(p.decPipe);
    FlatHead(q.decPipe);
    SeqAssoc(Flat(p.mapPipe), Live(p.decPipe[0].ops), Flat(p.decPipe[1..]));
    SeqAssoc(Flat(q.mapPipe), Live(q.decPipe[0].ops), Flat(q.decPipe[1..]));
  }

  lemma MapLinks(p: Pipe, width: nat)
    requires p.decPipe != [] && AllCompact(p.decPipe, width) && PipeOk(p.mapPipe, width) && Links(p)
    ensures Links(MapCycle(p))
  {
    var sds, q := p.mapPipe + [p.decPipe[0]], MapCycle(p);
    MapSplit(p, width);
    ShiftKeepsOrder(sds, width);
    assert Shift(sds)[0] == q.mapPipe[0] && sds[0] == p.mapPipe[0];
  }

  /** Ops are linked when they reach the last stage: those already there are not linked again. */
  lemma MapKeepsInv(c: Config, p: Pipe)
    requires Inv(c, p)
    ensures Inv(c, MapCycle(p))
  {
    var q := MapCycle(p);
    MapShape(p, c.issueWidth);
    MapOrder(p, c.issueWidth);
    MapLinks(p, c.issueWidth);
    SeqAssoc(p.node, Flat(p.mapPipe), Flat(p.decPipe));
    SeqAssoc(q.node, Flat(q.mapPipe), Flat(q.decPipe));
    MoveKeepsInv(c, p, q);
  }

  // ----- issue

  lemma {:induction false} DrainLive(ops: seq<Option<Op>>, k: nat)
    requires k <= |Live(ops)|
    ensures Live(Drain(ops, k)) == Live(ops)[k..]
  {
    if ops != [] && k != 0 {
      if ops[0].Some? {
        DrainLive(ops[1..], k - 1);
        assert Drain(ops, k)[1..] == Drain(ops[1..], k - 1);
      } else {
        DrainLive(ops[1..], k);
        assert Drain(ops, k)[1..] == Drain(ops[1..], k);
      }
    }
  }

  lemma IssueMoves(c: Config, p: Pipe)
    requires PipeOk(p.mapPipe, c.issueWidth) && |p.node| <= c.nodeTableSize
    ensures var q := IssueCycle(c, p);
      && q.mapPipe != [] && |p.node| <= |q.node| <= c.nodeTableSize && q.mapPipe[1..] == p.mapPipe[1..]
      && StageOk(q.mapPipe[0], c.issueWidth)
      && q.node + Live(q.mapPipe[0].ops) == p.node + Live(p.mapPipe[0].ops)
  {
    var waiting := Live(p.mapPipe[0].ops);
    var k := IssueCount(|p.node|, waiting, c.nodeTableSize);
    DrainLive(p.mapPipe[0].ops, k);
    assert waiting == waiting[..k] + waiting[k..];
    SeqAssoc(p.node, waiting[..k], waiting[k..]);
  }

  lemma IssueKeepsOrder(p: Pipe, q: Pipe)
    requires p.mapPipe != [] && q.mapPipe != [] && q.mapPipe[1..] == p.mapPipe[1..]
    requires q.node + Live(q.mapPipe[0].ops) == p.node + Live(p.mapPipe[0].ops)
    ensures q.node + Flat(q.mapPipe) == p.node + Flat(p.mapPipe)
  {
    FlatHead(p.mapPipe);
    FlatHead(q.mapPipe);
    SeqAssoc(p.node, Live(p.mapPipe[0].ops), Flat(p.mapPipe[1..]));
    SeqAssoc(q.node, Live(q.mapPipe[0].ops), Flat(q.mapPipe[1..]));
  }

  lemma IssueKeepsInv(c: Config, p: Pipe)
    requires Inv(c, p)
    ensures Inv(c, IssueCycle(c, p))
  {
    IssueMoves(c, p);
    IssueKeepsOrder(p, IssueCycle(c, p));
    MoveKeepsInv(c, p, IssueCycle(c, p));
  }

  // ----- execution

  lemma IndexOf(ops: seq<Op>, op: Op) returns (i: nat)
    requires op in ops
    ensures i < |ops| && ops[i] == op
  {
    i :| 0 <= i < |ops| && ops[i] == op;
  }

  /** A mispredict found on the correct path is the oldest one pending, and what it displaces was a
      branch of the wrong path, which never blocks retirement. */
  lemma OnPathMispredictWins(p: Pipe, op: Op)
    requires Partition(p) && Numbering(p) && Paths(p) && Recoveries(p)
    requires op in p.node && Unresolved(p, op) && !op.offPath
    ensures SchedRecovery(p.pending, op) == Some(op)
    ensures p.pending.Some? && p.pending.value != op ==> p.pending.value.offPath
  {
    if p.pending.Some? {
      var b := p.pending.value;
      var i := IndexOf(p.node, op);
      var j := IndexOf(p.node, b);
      assert p.seqOps[i] == op && p.seqOps[j] == b;
      assert op.num == p.retOp + i && b.num == p.retOp + j;
    }
  }

  lemma OnlySlot(ops: seq<Op>, k: nat)
    requires DistinctSlots(ops) && k < |ops|
    ensures forall i :: 0 <= i < |ops| && i != k ==> ops[i].slot != ops[k].slot
  {
  }

  lemma MispredictKeepsRecoveries(p: Pipe, op: Op)
    requires Partition(p) && Numbering(p) && Paths(p) && Recoveries(p) && DistinctSlots(p.seqOps)
    requires op in p.node && op.slot !in p.executed && op.slot !in p.recovered && op.inst.mispred
    ensures Recoveries(Execute(p, op))
  {
    var q := Execute(p, op);
    var k := IndexOf(p.node, op);
    assert p.seqOps[k] == op;
    OnlySlot(p.seqOps, k);
    if !op.offPath {
      OnPathMispredictWins(p, op);
    }
    forall i | 0 <= i < |q.seqOps| && q.seqOps[i].slot in q.recSched
      ensures !q.seqOps[i].offPath && q.pending == Some(q.seqOps[i])
    {
      if i != k {
        assert p.seqOps[i].slot in p.recSched;
        OnPathPendingStays(p, op, i);
      }
    }
    forall i | 0 <= i < |q.node| && q.node[i].slot in q.executed && Unresolved(q, q.node[i])
      ensures q.pending.Some? && q.pending.value.num <= q.node[i].num
    {
      assert q.node[i] == p.seqOps[i];
    }
  }

  /** A pending recovery of the correct path is not displaced by a younger branch. */
  lemma OnPathPendingStays(p: Pipe, op: Op, i: nat)
    requires Partition(p) && Numbering(p) && Paths(p) && Recoveries(p)
    requires op in p.node && op.inst.mispred && op.slot !in p.recovered
    requires i < |p.seqOps| && !p.seqOps[i].offPath && p.pending == Some(p.seqOps[i]) && p.seqOps[i] != op
    ensures Execute(p, op).pending == p.pending && op.offPath
  {
    var k := IndexOf(p.node, op);
    assert p.seqOps[k] == op && op.num == p.retOp + k && p.seqOps[i].num == p.retOp + i;
  }

  lemma PlainExecKeepsRecoveries(p: Pipe, op: Op)
    requires Partition(p) && Recoveries(p) && DistinctSlots(p.seqOps)
    requires op in p.node && op.slot !in p.executed && !op.inst.mispred
    ensures Recoveries(Execute(p, op))
  {
    var q := Execute(p, op);
    var k := IndexOf(p.node, op);
    assert p.seqOps[k] == op;
    OnlySlot(p.seqOps, k);
    assert forall i :: 0 <= i < |q.node| ==> q.node[i] == p.seqOps[i];
  }

  lemma ExecuteKeepsInv(c: Config, p: Pipe, op: Op)
    requires Inv(c, p) && op in p.node && op.slot !in p.executed
    ensures Inv(c, Execute(p, op))
  {
    var k := IndexOf(p.node, op);
    assert p.seqOps[k] == op;
    if op.inst.mispred {
      MispredictKeepsRecoveries(p, op);
    } else {
      PlainExecKeepsRecoveries(p, op);
    }
  }

  lemma FinishKeepsInv(c: Config, p: Pipe, op: Op)
    requires Inv(c, p) && op in p.node && op.slot in p.executed
    ensures Inv(c, p.(finished := p.finished + {op.slot}))
  {
  }

  // ----- retirement

  /** The op at the head is the one the code expects: number ret_op, head of the sequential list, its
      slot in use; and if it was mispredicted, its recovery has already happened. */
  lemma RetireAssertionsHold(c: Config, p: Pipe)
    requires Inv(c, p) && p.node != [] && ReadyToRetire(p, p.node[0])
    ensures p.seqOps != [] && p.seqOps[0] == p.node[0]
    ensures p.node[0].num == p.retOp && InUse(p.pool, p.node[0].slot)
    ensures !Unresolved(p, p.node[0])
  {
    assert p.node[0] == p.seqOps[0];
    assert Slots(p.seqOps)[0] == p.node[0].slot;
    if p.pending.Some? {
      var j := IndexOf(p.node, p.pending.value);
      assert p.seqOps[j] == p.pending.value && j != 0;
      assert p.pending.value.num == p.retOp + j;
    }
  }

  lemma RestSlots(ops: seq<Op>)
    requires ops != [] && DistinctSlots(ops)
    ensures DistinctSlots(ops[1..]) && ops[0].slot in Slots(ops)
    ensures forall t :: t in Slots(ops[1..]) <==> t in Slots(ops) && t != ops[0].slot
  {
    var ss, rest := Slots(ops), Slots(ops[1..]);
    assert ss == [ss[0]] + rest;
    forall i | 0 <= i < |rest| ensures rest[i] != ss[0] {
      assert rest[i] == ops[i + 1].slot;
    }
  }

  lemma RetireKeepsPooling(p: Pipe)
    requires Pooling(p) && p.node != [] && p.seqOps != [] && p.seqOps[0] == p.node[0]
    ensures InUse(p.pool, p.node[0].slot) && Pooling(RetireOne(p))
  {
    RestSlots(p.seqOps);
    FreeReturnsSlot(p.pool, p.node[0].slot);
  }

  lemma RetireKeepsRecoveries(p: Pipe, q: Pipe)
    requires Recoveries(p) && p.node != [] && p.seqOps != [] && p.seqOps[0] == p.node[0]
    requires ReadyToRetire(p, p.node[0])
    requires q == p.(pool := q.pool, seqOps := p.seqOps[1..], node := p.node[1..], linked := q.linked,
                     retOp := q.retOp, retired := q.retired)
    ensures Recoveries(q)
  {
    assert forall i :: 0 <= i < |q.seqOps| ==> q.seqOps[i] == p.seqOps[i + 1];
    assert forall i :: 0 <= i < |q.node| ==> q.node[i] == p.node[i + 1];
    if p.pending.Some? {
      var j := IndexOf(p.node, p.pending.value);
      assert j != 0;
      assert q.node[j - 1] == p.pending.value;
    }
  }

  lemma RetireKeepsPlaces(c: Config, p: Pipe, q: Pipe)
    requires Shape(c, p) && Partition(p) && Links(p)
    requires p.node != [] && p.seqOps != [] && p.seqOps[0] == p.node[0]
    requires q == p.(pool := q.pool, seqOps := p.seqOps[1..], node := p.node[1..], linked := p.linked[1..],
                     retOp := q.retOp, retired := q.retired)
    ensures Shape(c, q) && Partition(q) && Links(q)
  {
    DropHead(p.node, Flat(p.mapPipe));
    DropHead(p.node + Flat(p.mapPipe), Flat(p.decPipe));
    DropHead(p.node + Flat(p.mapPipe) + Flat(p.decPipe), Live(p.ic.ops));
    DropHead(p.node, Live(p.mapPipe[0].ops));
  }

  lemma DropHead(a: seq<Op>, b: seq<Op>)
    requires a != []
    ensures (a + b)[1..] == a[1..] + b
  {
  }

  lemma RetireKeepsOrder(p: Pipe, q: Pipe)
    requires Numbering(p) && UniqueNumbers(p) && Paths(p)
    requires p.seqOps != [] && !p.seqOps[0].offPath
    requires q == p.(pool := q.pool, seqOps := p.seqOps[1..], node := q.node, linked := q.linked,
                     retOp := p.retOp + 1, retired := p.retired + [p.seqOps[0]])
    ensures Numbering(q) && UniqueNumbers(q) && Paths(q)
  {
    assert p.seqOps == [p.seqOps[0]] + q.seqOps;
    assert q.retired + q.seqOps == p.retired + p.seqOps;
    assert forall i :: 0 <= i < |q.seqOps| ==> q.seqOps[i] == p.seqOps[i + 1];
  }

  lemma RetireKeepsInv(c: Config, p: Pipe)
    requires Inv(c, p) && p.node != [] && ReadyToRetire(p, p.node[0])
    ensures p.seqOps != [] && InUse(p.pool, p.node[0].slot)
    ensures Inv(c, RetireOne(p))
  {
    RetireAssertionsHold(c, p);
    var q := RetireOne(p);
    RetireKeepsPlaces(c, p, q);
    RetireKeepsOrder(p, q);
    RetireKeepsPooling(p);
    RetireKeepsRecoveries(p, q);
  }

  // ----- recovery

  /** The recovering op is in the node table, and everything younger is on the wrong path. */
  lemma RecoveryCut(c: Config, p: Pipe) returns (k: nat)
    requires Inv(c, p) && p.pending.Some?
    ensures var b := p.pending.value;
      && 0 < k <= |p.node| && p.seqOps[k - 1] == b && b.num == p.retOp + k - 1
      && k == Survivors(|p.seqOps|, p.retOp, b.num)
      && (forall i :: k <= i < |p.seqOps| ==> p.seqOps[i].offPath)
  {
    var b := p.pending.value;
    var j := IndexOf(p.node, b);
    assert p.seqOps[j] == b;
    k := j + 1;
  }

  lemma FlushOrderPermutes(p: Pipe, r: nat)
    requires Partition(p)
    ensures Kept(p.seqOps, r) ==
      Kept(p.node, r) + Kept(Flat(p.mapPipe), r) + Kept(Flat(p.decPipe), r) + Kept(Live(p.ic.ops), r)
    ensures Flushed(p.seqOps, r) ==
      Flushed(p.node, r) + Flushed(Flat(p.mapPipe), r) + Flushed(Flat(p.decPipe), r) + Flushed(Live(p.ic.ops), r)
    ensures multiset(FlushOrder(p, r)) == multiset(Flushed(p.seqOps, r))
  {
    KeptConcat(p.node, Flat(p.mapPipe), r);
    KeptConcat(p.node + Flat(p.mapPipe), Flat(p.decPipe), r);
    KeptConcat(p.node + Flat(p.mapPipe) + Flat(p.decPipe), Live(p.ic.ops), r);
  }

  lemma DistinctFromMultiset(a: seq<Op>, b: seq<Op>)
    requires multiset(a) == multiset(b) && DistinctSlots(b)
    ensures DistinctSlots(a) && |a| == |b|
    ensures forall s :: s in Slots(a) <==> s in Slots(b)
  {
    assert |multiset(a)| == |a| && |multiset(b)| == |b|;
    forall i, j | 0 <= i < j < |a| ensures a[i].slot != a[j].slot {
      if a[i] == a[j] {
        TwiceInMultiset(a, i, j);
        OnceInMultiset(b, a[i]);
      } else {
        assert a[i] in multiset(b) && a[j] in multiset(b);
        var x := IndexOf(b, a[i]);
        var y := IndexOf(b, a[j]);
      }
    }
    SlotsOfMultiset(a, b);
    SlotsOfMultiset(b, a);
  }

  lemma SlotsOfMultiset(a: seq<Op>, b: seq<Op>)
    requires multiset(a) == multiset(b)
    ensures forall s :: s in Slots(a) ==> s in Slots(b)
  {
    forall s | s in Slots(a) ensures s in Slots(b) {
      var i :| 0 <= i < |a| && Slots(a)[i] == s;
      assert a[i] in multiset(b);
      var j := IndexOf(b, a[i]);
      assert Slots(b)[j] == s;
    }
  }

  lemma TwiceInMultiset(a: seq<Op>, i: nat, j: nat)
    requires i < j < |a| && a[i] == a[j]
    ensures multiset(a)[a[i]] >= 2
  {
    assert a == a[..j] + [a[j]] + a[j + 1..];
    assert a[..j][i] == a[i];
    assert a[i] in multiset(a[..j]);
    assert multiset(a) == multiset(a[..j]) + multiset{a[j]} + multiset(a[j + 1..]);
  }

  lemma OnceInMultiset(b: seq<Op>, op: Op)
    requires DistinctSlots(b)
    ensures multiset(b)[op] <= 1
    decreases |b|
  {
    if b != [] {
      var init, last := b[..|b| - 1], b[|b| - 1];
      OnceInMultiset(init, op);
      assert b == init + [last];
      assert multiset(b) == multiset(init) + multiset{last};
      assert forall i :: 0 <= i < |init| ==> init[i] == b[i] && init[i].slot != last.slot;
    }
  }

  lemma SuffixInUse(p: Pipe, k: nat)
    requires Pooling(p) && k <= |p.seqOps|
    ensures DistinctSlots(p.seqOps[k..])
    ensures forall s :: s in Slots(p.seqOps[k..]) ==> InUse(p.pool, s)
  {
    var gone := p.seqOps[k..];
    forall s | s in Slots(gone) ensures s in Slots(p.seqOps) {
      var j :| 0 <= j < |gone| && Slots(gone)[j] == s;
      assert Slots(p.seqOps)[k + j] == s;
    }
  }

  /** Every flushed op is in use and in the list once, so each is freed exactly once. */
  lemma FlushOrderInUse(c: Config, p: Pipe)
    requires Inv(c, p) && p.pending.Some?
    ensures var r := p.pending.value.num;
      && AllInUse(p.pool, FlushOrder(p, r)) && |FlushOrder(p, r)| == |Flushed(p.seqOps, r)|
      && forall s :: s in Slots(FlushOrder(p, r)) <==> s in Slots(Flushed(p.seqOps, r))
  {
    var r := p.pending.value.num;
    var order, k := FlushOrder(p, r), Survivors(|p.seqOps|, p.retOp, r);
    KeptIsPrefix(p.seqOps, p.retOp, r);
    SuffixInUse(p, k);
    FlushOrderPermutes(p, r);
    DistinctFromMultiset(order, p.seqOps[k..]);
    assert forall i :: 0 <= i < |order| ==> order[i].slot == Slots(order)[i];
  }

  lemma KeepFlushesShape(c: Config, p: Pipe, r: nat)
    requires Shape(c, p) && Partition(p) && Numbering(p)
    ensures Compact(KeepStage(p.ic, r), c.issueWidth)
    ensures AllCompact(KeepAll(p.decPipe, r), c.issueWidth)
  {
    var front := p.node + Flat(p.mapPipe);
    var behind := front + Flat(p.decPipe);
    SubsequenceNumbers(front, Flat(p.decPipe), Live(p.ic.ops), p.retOp);
    KeepStaysCompact(p.ic, r, c.issueWidth, p.retOp + |behind|);
    KeepAllCompact(p.decPipe, r, c.issueWidth, p.retOp + |front|);
  }

  lemma SubsequenceNumbers(a: seq<Op>, b: seq<Op>, c: seq<Op>, first: nat)
    requires Consecutive(a + b + c, first)
    ensures Consecutive(b, first + |a|) && Consecutive(c, first + |a + b|)
  {
    var all := a + b + c;
    assert forall i :: 0 <= i < |b| ==> b[i] == all[|a| + i];
    assert forall i :: 0 <= i < |c| ==> c[i] == all[|a + b| + i];
  }

  lemma CollapseShape(sds: seq<Stage>, width: nat, r: nat)
    requires PipeOk(sds, width)
    ensures PipeOk(CollapseAll(sds, r), width)
  {
    var out := CollapseAll(sds, r);
    assert forall i :: 1 <= i < |sds| ==> sds[i] == sds[1..][i - 1];
    forall i | 0 <= i < |sds| ensures Compact(out[i], width) {
      CollapseIsCompact(sds[i], r);
    }
    CompactLive(out[0], width);
    assert forall i :: 0 <= i < |out| - 1 ==> out[1..][i] == out[i + 1];
  }

  lemma RecoverKeepsPlaces(c: Config, p: Pipe, q: Pipe, r: nat)
    requires Shape(c, p) && Partition(p) && Numbering(p) && Links(p)
    requires q == p.(seqOps := Kept(p.seqOps, r), ic := KeepStage(p.ic, r), decPipe := KeepAll(p.decPipe, r),
                     mapPipe := CollapseAll(p.mapPipe, r), node := Kept(p.node, r), linked := Kept(p.linked, r))
    ensures Shape(c, q) && Partition(q) && Links(q)
  {
    KeepFlushesShape(c, p, r);
    CollapseShape(p.mapPipe, c.issueWidth, r);
    FlushOrderPermutes(p, r);
    KeepSlotsLive(p.ic.ops, r);
    KeepAllFlat(p.decPipe, r);
    CollapseAllFlat(p.mapPipe, r);
    KeptConcat(p.node, Live(p.mapPipe[0].ops), r);
    CollapseIsCompact(p.mapPipe[0], r);
  }

  lemma SplitSlots(ops: seq<Op>, k: nat)
    requires DistinctSlots(ops) && k <= |ops|
    ensures DistinctSlots(ops[..k]) && Slots(ops) == Slots(ops[..k]) + Slots(ops[k..])
    ensures forall s :: s in Slots(ops[..k]) ==> s !in Slots(ops[k..])
  {
    var kept, gone := ops[..k], ops[k..];
    forall i, j | 0 <= i < |kept| && 0 <= j < |gone| ensures Slots(kept)[i] != Slots(gone)[j] {
      assert ops[i].slot != ops[k + j].slot;
    }
  }

  lemma RecoverKeepsPooling(p: Pipe, q: Pipe, order: seq<Op>, k: nat)
    requires Pooling(p) && k <= |p.seqOps| && AllInUse(p.pool, order) && |order| == |p.seqOps[k..]|
    requires forall s :: s in Slots(order) <==> s in Slots(p.seqOps[k..])
    requires q.seqOps == p.seqOps[..k] && q.pool == FreeAll(p.pool, order)
    ensures Pooling(q)
  {
    FreeAllConserves(p.pool, order);
    SplitSlots(p.seqOps, k);
  }

  lemma RecoverKeepsPaths(c: Config, p: Pipe, q: Pipe)
    requires Inv(c, p) && p.pending.Some?
    requires var b := p.pending.value;
      && q.seqOps == Kept(p.seqOps, b.num) && q.backOnPath == !b.offPath && q.offPath == p.offPath
      && q.recovered == p.recovered + {b.slot} && q.retired == p.retired
    ensures Paths(q)
  {
    var k := RecoveryCut(c, p);
    KeptIsPrefix(p.seqOps, p.retOp, p.pending.value.num);
    CutKeepsPaths(p, q, k);
  }

  lemma CutKeepsPaths(p: Pipe, q: Pipe, k: nat)
    requires Paths(p) && p.pending.Some? && Unresolved(p, p.pending.value) && 0 < k <= |p.seqOps|
    requires p.seqOps[k - 1] == p.pending.value && DistinctSlots(p.seqOps)
    requires var b := p.pending.value;
      && q.seqOps == p.seqOps[..k] && q.backOnPath == !b.offPath && q.offPath == p.offPath
      && q.recovered == p.recovered + {b.slot} && q.retired == p.retired
    ensures Paths(q)
  {
    assert forall i :: 0 <= i < k ==> q.seqOps[i] == p.seqOps[i];
  }

  lemma RecoverKeepsOrder(c: Config, p: Pipe, q: Pipe)
    requires Inv(c, p) && p.pending.Some?
    requires var b := p.pending.value;
      && q.seqOps == Kept(p.seqOps, b.num) && q.opCount == b.num + 1 && q.retOp == p.retOp
      && q.retired == p.retired && q.uniqueCount == p.uniqueCount
    ensures Numbering(q) && UniqueNumbers(q)
  {
    var k := RecoveryCut(c, p);
    KeptIsPrefix(p.seqOps, p.retOp, p.pending.value.num);
    var n := |p.retired|;
    assert forall i :: 0 <= i < |q.retired + q.seqOps| ==> (q.retired + q.seqOps)[i] == (p.retired + p.seqOps)[i];
  }

  lemma NodeNumbers(p: Pipe)
    requires Partition(p) && Numbering(p)
    ensures |p.node| <= |p.seqOps| && Consecutive(p.node, p.retOp)
    ensures forall i :: 0 <= i < |p.node| ==> p.node[i] == p.seqOps[i]
  {
    assert forall i :: 0 <= i < |p.node| ==> p.node[i] == p.seqOps[i];
  }

  /** The flush keeps nothing younger than the recovering op, and it is settled now. */
  lemma RecoverKeepsRecoveries(p: Pipe, q: Pipe, k: nat)
    requires Recoveries(p) && p.pending.Some? && 0 < k <= |p.node| <= |p.seqOps|
    requires Consecutive(p.node, p.retOp) && p.node[k - 1] == p.pending.value
    requires var b := p.pending.value;
      && q.seqOps == p.seqOps[..k] && q.node == p.node[..k] && q.pending == None
      && q.recovered == p.recovered + {b.slot} && q.recSched == p.recSched - {b.slot}
      && q.executed == p.executed && q.finished == p.finished
    ensures Recoveries(q)
  {
    assert forall i :: 0 <= i < k ==> q.node[i] == p.node[i] && q.node[i].num == p.retOp + i;
    assert forall i :: 0 <= i < k ==> q.seqOps[i] == p.seqOps[i];
  }

  /** Where the recovery cuts the node list and the sequential list. */
  lemma RecoverCuts(c: Config, p: Pipe, q: Pipe) returns (k: nat)
    requires Inv(c, p) && p.pending.Some?
    requires AllInUse(p.pool, FlushOrder(p, p.pending.value.num)) && q == Recover(p)
    ensures 0 < k <= |p.node| <= |p.seqOps| && p.node[k - 1] == p.pending.value && Consecutive(p.node, p.retOp)
    ensures q.seqOps == p.seqOps[..k] == Kept(p.seqOps, p.pending.value.num) && q.node == p.node[..k]
    ensures Flushed(p.seqOps, p.pending.value.num) == p.seqOps[k..]
  {
    var r := p.pending.value.num;
    ClipIsKept(p.seqOps, p.retOp, r);
    k := RecoveryCut(c, p);
    NodeNumbers(p);
    KeptIsPrefix(p.node, p.retOp, r);
    KeptIsPrefix(p.seqOps, p.retOp, r);
  }

  lemma RecoverPlaces(c: Config, p: Pipe, q: Pipe)
    requires Inv(c, p) && p.pending.Some? && AllInUse(p.pool, FlushOrder(p, p.pending.value.num)) && q == Recover(p)
    ensures Shape(c, q) && Partition(q) && Links(q)
  {
    var r := p.pending.value.num;
    ClipIsKept(p.seqOps, p.retOp, r);
    RecoverKeepsPlaces(c, p, p.(seqOps := q.seqOps, ic := q.ic, decPipe := q.decPipe, mapPipe := q.mapPipe,
                                node := q.node, linked := q.linked), r);
  }

  lemma RecoverKeepsInv(c: Config, p: Pipe)
    requires Inv(c, p) && p.pending.Some?
    ensures AllInUse(p.pool, FlushOrder(p, p.pending.value.num))
    ensures Inv(c, Recover(p))
  {
    FlushOrderInUse(c, p);
    var q := Recover(p);
    var k := RecoverCuts(c, p, q);
    RecoverPlaces(c, p, q);
    RecoverKeepsPaths(c, p, q);
    RecoverKeepsOrder(c, p, q);
    RecoverKeepsPooling(p, q, FlushOrder(p, p.pending.value.num), k);
    RecoverKeepsRecoveries(p, q, k);
  }
}
