/** The core as the code runs it: the same steps, carried out by loops over its own fields and stages. */
module Core {
  import opened Ops
  import opened OpPool
  import opened Stages
  import opened Pipeline
  import opened PipelineSteps
  import opened PipelineRuns
  import opened StepEffects

  // ----- what the loops compute

  ghost predicate CanFetch(c: Config, p: Pipe) {
    PoolInv(p.pool) && |p.ic.ops| == c.issueWidth
  }

  /** Everything the fetch loop does with a batch of front-end answers, until it breaks. */
  ghost function FetchBatch(c: Config, p: Pipe, fs: seq<Fetch>): Pipe
    requires CanFetch(c, p)
    decreases |fs|
  {
    if fs == [] || p.ic.count >= c.issueWidth then p
    else if fs[0].Take? then
      AllocTakesFreshSlot(p.pool);
      FetchBatch(c, FetchOne(p, fs[0].inst), fs[1..])
    else FetchAbort(p)
  }

  lemma RunFrom(c: Config, p: Pipe, e: Event, es: seq<Event>, end: Pipe)
    requires Inv(c, p) && Enabled(c, p, e) && Inv(c, Step(c, p, e)) && Reaches(c, Step(c, p, e), es, end)
    ensures Reaches(c, p, [e] + es, end)
  {
    assert ([e] + es)[1..] == es;
  }

  /** The fetch loop is a run of FetchOp events, so what holds of every run holds of it. */
  lemma {:induction false} FetchBatchIsARun(c: Config, p: Pipe, fs: seq<Fetch>) returns (es: seq<Event>)
    requires Inv(c, p) && !p.backOnPath
    ensures CanFetch(c, p) && Reaches(c, p, es, FetchBatch(c, p, fs))
    decreases |fs|
  {
    es := [];
    if fs != [] && p.ic.count < c.issueWidth {
      var e := FetchOp(fs[0]);
      StepKeepsInv(c, p, e);
      if fs[0].Take? {
        var rest := FetchBatchIsARun(c, Step(c, p, e), fs[1..]);
        RunFrom(c, p, e, rest, FetchBatch(c, p, fs));
        es := [e] + rest;
      } else {
        RunFrom(c, p, e, [], FetchBatch(c, p, fs));
        es := [e] + [];
      }
    }
  }

  lemma NothingFetched(p: Pipe, q: Pipe, fs: seq<Fetch>)
    requires PoolInv(p.pool) && (q == p || q == FetchAbort(p))
    ensures Fetched(p, q, fs, 0)
  {
    AllocFreeIsStocked(p.pool);
    ExpandKeepsInv(p.pool);
    assert q.seqOps[..|p.seqOps|] == p.seqOps;
  }

  lemma NextFetched(c: Config, p: Pipe, fs: seq<Fetch>) returns (p1: Pipe)
    requires CanFetch(c, p) && fs != [] && p.ic.count < c.issueWidth && fs[0].Take?
    ensures p1 == FetchOne(p, fs[0].inst) && CanFetch(c, p1)
  {
    AllocTakesFreshSlot(p.pool);
    p1 := FetchOne(p, fs[0].inst);
  }

  /** q is what the loop leaves, with n ops fetched. */
  ghost predicate FetchEnds(c: Config, p: Pipe, fs: seq<Fetch>, q: Pipe, n: nat) {
    CanFetch(c, p) && q == FetchBatch(c, p, fs) && n == FetchedCount(c, p, fs) && Fetched(p, q, fs, n)
  }

  lemma FetchEndsOneMore(c: Config, p: Pipe, fs: seq<Fetch>, p1: Pipe, q: Pipe, n1: nat)
    requires CanFetch(c, p) && fs != [] && p.ic.count < c.issueWidth && fs[0].Take?
    requires p1 == FetchOne(p, fs[0].inst) && FetchEnds(c, p1, fs[1..], q, n1)
    ensures FetchEnds(c, p, fs, q, n1 + 1)
  {
    AllocTakesFreshSlot(p.pool);
    FetchedMore(p, q, fs, n1);
  }

  /** How far the fetch loop goes, and what it leaves. */
  lemma {:induction false} FetchBatchFetches(c: Config, p: Pipe, fs: seq<Fetch>) returns (q: Pipe, n: nat)
    requires CanFetch(c, p)
    ensures FetchEnds(c, p, fs, q, n)
    decreases |fs|
  {
    if fs != [] && p.ic.count < c.issueWidth && fs[0].Take? {
      var p1 := NextFetched(c, p, fs);
      var rest, n1 := fs[1..], 0;
      q, n1 := FetchBatchFetches(c, p1, rest);
      FetchEndsOneMore(c, p, fs, p1, q, n1);
      n := n1 + 1;
    } else {
      q, n := FetchBatch(c, p, fs), 0;
      NothingFetched(p, q, fs);
    }
  }

  ghost predicate CanRetire(p: Pipe) {
    PoolInv(p.pool) && AllInUse(p.pool, p.node) && p.node <= p.seqOps
  }

  lemma RetireOneCanRetire(p: Pipe)
    requires CanRetire(p) && p.node != []
    ensures p.seqOps != [] && InUse(p.pool, p.node[0].slot) && CanRetire(RetireOne(p))
  {
    FreeReturnsSlot(p.pool, p.node[0].slot);
    assert p.seqOps[..|p.node|] == p.node;
    assert p.seqOps[1..][..|p.node| - 1] == p.node[1..];
  }

  /** Retires from the head while the head is ready, at most n ops. */
  ghost function RetireUpTo(p: Pipe, n: nat): Pipe
    requires CanRetire(p)
    decreases n
  {
    if n == 0 || p.node == [] || !ReadyToRetire(p, p.node[0]) then p
    else
      RetireOneCanRetire(p);
      RetireUpTo(RetireOne(p), n - 1)
  }

  /** k ops retired from the head, and why no more. */
  ghost predicate Retired(p: Pipe, q: Pipe, width: nat, k: nat) {
    && RetiredOps(p.node, p.finished, p.recSched, width, q.node, k)
    && q.retOp == p.retOp + k && k <= |p.seqOps| && q.seqOps == p.seqOps[k..] && SlotsFreed(p.pool, p.node[..k], q.pool)
    && q.retired == p.retired + p.node[..k] && q.finished == p.finished && q.recSched == p.recSched
  }

  lemma RetiredMore(p: Pipe, q: Pipe, width: nat, k: nat)
    requires CanRetire(p) && p.node != [] && p.seqOps != [] && InUse(p.pool, p.node[0].slot)
    requires p.node[0].slot in p.finished && !p.node[0].offPath && p.node[0].slot !in p.recSched
    requires Retired(RetireOne(p), q, width, k)
    ensures Retired(p, q, width + 1, k + 1)
  {
    FreeReturnsSlot(p.pool, p.node[0].slot);
    FreedMore(p.pool, Free(p.pool, p.node[0].slot), p.node[0], p.node[1..][..k], q.pool);
    OneMoreHead(p.node, k);
    assert p.seqOps[1..][k..] == p.seqOps[k + 1..];
    assert p.retired + [p.node[0]] + p.node[1..][..k] == p.retired + ([p.node[0]] + p.node[1..][..k]);
  }

  lemma OneMoreHead(ops: seq<Op>, k: nat)
    requires k < |ops|
    ensures ops[..k + 1] == [ops[0]] + ops[1..][..k] && ops[k + 1..] == ops[1..][k..]
    ensures forall i :: 0 < i <= k ==> ops[1..][i - 1] == ops[i]
  {
  }

  lemma FreedMore(before: Pool, mid: Pool, op: Op, ops: seq<Op>, after: Pool)
    requires mid.active + 1 == before.active && forall s :: InUse(mid, s) <==> InUse(before, s) && s != op.slot
    requires SlotsFreed(mid, ops, after)
    ensures SlotsFreed(before, [op] + ops, after)
  {
    assert Slots([op] + ops) == [op.slot] + Slots(ops);
  }

  /** How far the retire loop goes, and what it leaves. */
  lemma {:induction false} RetireUpToRetires(p: Pipe, n: nat) returns (q: Pipe, k: nat)
    requires CanRetire(p)
    ensures q == RetireUpTo(p, n) && Retired(p, q, n, k)
    decreases n
  {
    if n > 0 && p.node != [] && ReadyToRetire(p, p.node[0]) {
      var m, k1 := n - 1, 0;
      RetireUpToStep(p, n, m);
      q, k1 := RetireUpToRetires(RetireOne(p), m);
      RetiredMore(p, q, m, k1);
      k := k1 + 1;
    } else {
      q, k := p, 0;
      assert p.node[..0] == [] && p.node[0..] == p.node && p.seqOps[0..] == p.seqOps;
    }
  }

  lemma RetireUpToStep(p: Pipe, n: nat, m: nat)
    requires CanRetire(p) && n == m + 1 && p.node != [] && ReadyToRetire(p, p.node[0])
    ensures p.seqOps != [] && InUse(p.pool, p.node[0].slot) && CanRetire(RetireOne(p))
    ensures RetireUpTo(p, n) == RetireUpTo(RetireOne(p), m)
  {
    RetireOneCanRetire(p);
  }

  /** Either the loop stops, or it goes on after one retirement, with m retirements left. */
  lemma RetireTurn(c: Config, p: Pipe, n: nat) returns (more: bool, q: Pipe, m: nat)
    requires Inv(c, p)
    ensures Inv(c, q) && CanRetire(p) && CanRetire(q)
    ensures more ==> m + 1 == n && Enabled(c, p, Retire) && q == Step(c, p, Retire)
    ensures more ==> RetireUpTo(p, n) == RetireUpTo(q, m)
    ensures !more ==> RetireUpTo(p, n) == p
  {
    NodeInUse(p);
    more := n > 0 && p.node != [] && ReadyToRetire(p, p.node[0]);
    q, m := p, 0;
    if more {
      StepKeepsInv(c, p, Retire);
      q, m := Step(c, p, Retire), n - 1;
      RetireUpToStep(p, n, m);
    }
  }

  /** The retire loop is a run of single retirements. */
  lemma {:induction false} RetireUpToIsARun(c: Config, p: Pipe, n: nat) returns (es: seq<Event>, end: Pipe)
    requires Inv(c, p)
    ensures CanRetire(p) && end == RetireUpTo(p, n)
    ensures Reaches(c, p, es, end)
    decreases n
  {
    var more, q, m := RetireTurn(c, p, n);
    es, end := [], p;
    if more {
      es, end := RetireUpToIsARun(c, q, m);
      RunFrom(c, p, Retire, es, end);
      es := [Retire] + es;
    }
  }

  lemma NodeInUse(p: Pipe)
    requires Partition(p) && Pooling(p)
    ensures CanRetire(p)
  {
    assert forall i :: 0 <= i < |p.node| ==> p.node[i] == p.seqOps[i];
    assert forall i :: 0 <= i < |p.node| ==> p.node[i].slot == Slots(p.seqOps)[i];
  }

  /** What the loop of node_issue makes of the slots it has not seen: the ops it takes, the slots it leaves. */
  ghost function IssueRest(occupied: nat, slots: seq<Option<Op>>, tableSize: nat): (r: (seq<Op>, seq<Option<Op>>))
    decreases |slots|
  {
    if slots == [] || occupied >= tableSize then ([], slots)
    else if slots[0].None? then
      var r := IssueRest(occupied, slots[1..], tableSize);
      (r.0, [None] + r.1)
    else
      var op := slots[0].value;
      if op.inst.barIssue && occupied > 0 then ([], slots)
      else if op.inst.barIssue then ([op], [None] + slots[1..])
      else
        var r := IssueRest(occupied + 1, slots[1..], tableSize);
        ([op] + r.0, [None] + r.1)
  }

  lemma {:induction false} IssueRestDrains(occupied: nat, slots: seq<Option<Op>>, tableSize: nat)
    requires occupied <= tableSize
    ensures var k := IssueCount(occupied, Live(slots), tableSize);
      IssueRest(occupied, slots, tableSize) == (Live(slots)[..k], Drain(slots, k))
    decreases |slots|
  {
    if slots != [] && occupied < tableSize {
      var live, rest := Live(slots), Live(slots[1..]);
      var k := IssueCount(occupied, live, tableSize);
      if slots[0].None? {
        IssueRestDrains(occupied, slots[1..], tableSize);
        assert live == rest;
        if k == 0 {
          assert slots == [None] + slots[1..];
        }
      } else if slots[0].value.inst.barIssue {
        assert live[..0] == [] && live[..1] == [slots[0].value];
      } else {
        IssueRestDrains(occupied + 1, slots[1..], tableSize);
        assert live[1..] == rest;
        assert live[..k] == [live[0]] + rest[..k - 1];
      }
    } else {
      assert Live(slots)[..0] == [];
    }
  }

  lemma IssuesExactly(c: Config, node: seq<Op>, src: Stage, k: nat)
    requires StageOk(src, c.issueWidth) && k == IssueCount(|node|, Live(src.ops), c.nodeTableSize)
    ensures IssuedOps(c.nodeTableSize, node, src, node + Live(src.ops)[..k], Stage(Drain(src.ops, k), src.count - k), k)
  {
    IssueCountIs(c.nodeTableSize, |node|, Live(src.ops));
    DrainLive(src.ops, k);
    DrainEmpties(src.ops, k);
  }

  /** Where the loop ends up when it stands at slot ii. */
  ghost function IssueOutcome(node: seq<Op>, ops: seq<Option<Op>>, ii: nat, tableSize: nat): (seq<Op>, seq<Option<Op>>)
    requires ii <= |ops|
  {
    var r := IssueRest(|node|, ops[ii..], tableSize);
    (node + r.0, ops[..ii] + r.1)
  }

  lemma IssueStands(node: seq<Op>, ops: seq<Option<Op>>, ii: nat)
    requires ii <= |ops|
    ensures node + [] == node && ops[..ii] + ops[ii..] == ops
  {
  }

  lemma IssueStep(node: seq<Op>, ops: seq<Option<Op>>, ii: nat, tableSize: nat)
    requires ii < |ops| && |node| <= tableSize
    ensures IssueOutcome(node, ops, ii, tableSize) ==
      if |node| == tableSize then (node, ops)
      else if ops[ii].None? then IssueOutcome(node, ops, ii + 1, tableSize)
      else if ops[ii].value.inst.barIssue then
        (if node == [] then ([ops[ii].value], ops[ii := None]) else (node, ops))
      else IssueOutcome(node + [ops[ii].value], ops[ii := None], ii + 1, tableSize)
  {
    assert ops[ii..][1..] == ops[ii + 1..] == ops[ii := None][ii + 1..];
    assert ops == ops[..ii] + ops[ii..];
    assert ops[..ii + 1] == ops[..ii] + [ops[ii]];
    assert ops[ii := None][..ii + 1] == ops[..ii] + [None];
    assert ops[ii := None] == ops[..ii] + ([None] + ops[ii + 1..]);
    IssueStands(node, ops, ii);
    if |node| < tableSize && ops[ii].None? {
      var rest := IssueRest(|node|, ops[ii + 1..], tableSize).1;
      assert ops[..ii] + ([None] + rest) == ops[..ii + 1] + rest;
    } else if |node| < tableSize && !ops[ii].value.inst.barIssue {
      var rest := IssueRest(|node| + 1, ops[ii + 1..], tableSize).1;
      assert ops[..ii] + ([None] + rest) == ops[ii := None][..ii + 1] + rest;
      assert node + [ops[ii].value] + IssueRest(|node| + 1, ops[ii + 1..], tableSize).0 ==
        node + ([ops[ii].value] + IssueRest(|node| + 1, ops[ii + 1..], tableSize).0);
    } else if |node| < tableSize && node == [] {
      assert node + [ops[ii].value] == [ops[ii].value];
    }
  }

  // ----- the loops

  /** icache_stage.c with the sequential list of thread.c, and the op pool. */
  class FrontEnd {
    const pool: OpPoolList
    var seqOps: seq<Op>
    var sd: Stage
    var opCount: nat
    var uniqueCount: nat
    var offPath: bool
    var backOnPath: bool

    /** The front end is in the state the machine describes. */
    ghost predicate Matches(p: Pipe)
      reads this, pool
    {
      pool.Valid() && pool.view == p.pool && FieldsMatch(p)
    }

    ghost predicate FieldsMatch(p: Pipe)
      reads this
    {
      && seqOps == p.seqOps && sd == p.ic && opCount == p.opCount
      && uniqueCount == p.uniqueCount && offPath == p.offPath && backOnPath == p.backOnPath
    }

    constructor (width: nat)
      ensures pool.Valid() && pool.view == EmptyPool && fresh(pool) && seqOps == [] && sd == Stage(NullOps(width), 0)
      ensures opCount == 1 && uniqueCount == 1 && !offPath && !backOnPath
    {
      pool := new OpPoolList();
      seqOps, sd := [], Stage(NullOps(width), 0);
      opCount, uniqueCount, offPath, backOnPath := 1, 1, false, false;
    }

    /** icache_issue_ops */
    method IssueFetched(c: Config, fs: seq<Fetch>, ghost p: Pipe) returns (ghost end: Pipe, ghost n: nat)
      requires Matches(p) && CanFetch(c, p)
      modifies this, pool
      ensures Matches(end) && end == FetchBatch(c, p, fs)
      ensures Fetched(p, end, fs, n) && (p.ic.count <= c.issueWidth ==> p.ic.count + n <= c.issueWidth)
      ensures n < |fs| && p.ic.count + n < c.issueWidth ==> !fs[n].Take?
    {
      end, n := FetchBatchFetches(c, p, fs);
      FetchLoop(c, fs, p, end);
    }

    method FetchLoop(c: Config, fs: seq<Fetch>, ghost p: Pipe, ghost end: Pipe)
      requires Matches(p) && CanFetch(c, p) && end == FetchBatch(c, p, fs)
      modifies this, pool
      ensures Matches(end)
    {
      ghost var q := p;
      var ii := 0;
      assert fs[0..] == fs;
      while ii < |fs| && sd.count < c.issueWidth
        invariant 0 <= ii <= |fs| && Matches(q) && CanFetch(c, q)
        invariant FetchBatch(c, q, fs[ii..]) == end
        decreases |fs| - ii
      {
        assert fs[ii..][1..] == fs[ii + 1..];
        AllocTakesFreshSlot(q.pool);
        var taken := IssueOne(c, fs[ii], q);
        if !taken {
          return;
        }
        q := FetchOne(q, fs[ii].inst);
        ii := ii + 1;
      }
    }

    /** One turn of that loop: allocate, ask the front end, number, append, store, count. */
    method IssueOne(c: Config, f: Fetch, ghost p: Pipe) returns (taken: bool)
      requires Matches(p) && CanFetch(c, p) && p.ic.count < c.issueWidth
      modifies this, pool
      ensures taken == f.Take? && Matches(if taken then FetchOne(p, f.inst) else FetchAbort(p))
    {
      AllocFreeIsStocked(p.pool);
      var slot := pool.AllocOp();
      taken := f.Take?;
      if taken {
        StoreFetched(slot, f.inst, p);
      } else {
        pool.FreeOp(slot);
      }
    }

    /** The op fetched into the given slot. */
    method StoreFetched(slot: Slot, inst: Inst, ghost p: Pipe)
      requires FieldsMatch(p) && PoolInv(p.pool) && slot == NextSlot(p.pool) && p.ic.count < |p.ic.ops|
      modifies this
      ensures FieldsMatch(FetchOne(p, inst))
    {
      var op := Op(slot, opCount, uniqueCount, offPath, inst);
      seqOps := seqOps + [op];
      sd := Stage(sd.ops[sd.count := Some(op)], sd.count + 1);
      opCount, uniqueCount := opCount + 1, uniqueCount + 1;
      offPath := offPath || inst.mispred;
    }

    /** recover_seq_op_list: clear the list, or walk it and clip it behind the recovering op. */
    method RecoverSeqOps(r: nat)
      modifies this`seqOps
      ensures seqOps == RecoverSeqOpList(old(seqOps), r)
    {
      if seqOps != [] {
        if seqOps[0].num > r {
          seqOps := [];
        } else {
          var ii := 0;
          assert seqOps[0..] == seqOps;
          while ii < |seqOps|
            invariant 0 <= ii <= |seqOps| && seqOps == old(seqOps)
            invariant ClipAt(seqOps, r) == seqOps[..ii] + ClipAt(seqOps[ii..], r)
          {
            assert seqOps[ii..][1..] == seqOps[ii + 1..];
            assert seqOps[..ii + 1] == seqOps[..ii] + [seqOps[ii]];
            if seqOps[ii].num == r {
              seqOps := seqOps[..ii + 1];
              return;
            }
            ii := ii + 1;
          }
          assert seqOps[..ii] == seqOps;
        }
      }
    }

    /** The front-end part of cmp_recover: recover_thread, then recover_icache_stage. */
    method RecoverFrontEnd(recoveryOp: Op) returns (freed: seq<Op>)
      modifies this`seqOps, this`sd, this`opCount, this`backOnPath
      ensures seqOps == RecoverSeqOpList(old(seqOps), recoveryOp.num) && sd == KeepStage(old(sd), recoveryOp.num)
      ensures opCount == recoveryOp.num + 1 && backOnPath == !recoveryOp.offPath
      ensures freed == Flushed(Live(old(sd).ops), recoveryOp.num)
    {
      RecoverSeqOps(recoveryOp.num);
      var st, fs := FlushInPlace(sd, recoveryOp.num);
      sd, freed := st, fs;
      backOnPath := !recoveryOp.offPath;
      opCount := recoveryOp.num + 1;
    }
  }

  /** The node list of node_stage.c. */
  class NodeTable {
    var node: seq<Op>
    var retOp: nat

    constructor ()
      ensures node == [] && retOp == 1
    {
      node, retOp := [], 1;
    }

    /** node_issue: takes ops out of the last map stage until it has to stop. */
    method NodeIssue(c: Config, src: Stage) returns (srcOut: Stage, ghost k: nat)
      requires StageOk(src, c.issueWidth) && |node| <= c.nodeTableSize
      modifies this`node
      ensures k == IssueCount(|old(node)|, Live(src.ops), c.nodeTableSize)
      ensures node == old(node) + Live(src.ops)[..k] && srcOut == Stage(Drain(src.ops, k), src.count - k)
      ensures IssuedOps(c.nodeTableSize, old(node), src, node, srcOut, k)
    {
      k := IssueCount(|node|, Live(src.ops), c.nodeTableSize);
      IssuesExactly(c, node, src, k);
      srcOut := IssueLoop(c, src);
    }

    method IssueLoop(c: Config, src: Stage) returns (srcOut: Stage)
      requires StageOk(src, c.issueWidth) && |node| <= c.nodeTableSize
      modifies this`node
      ensures var k := IssueCount(|old(node)|, Live(src.ops), c.nodeTableSize);
        node == old(node) + Live(src.ops)[..k] && srcOut == Stage(Drain(src.ops, k), src.count - k)
    {
      IssueRestDrains(|node|, src.ops, c.nodeTableSize);
      ghost var goal := IssueOutcome(node, src.ops, 0, c.nodeTableSize);
      var ops, ii, stop := src.ops, 0, src.count == 0;
      var count: int := src.count;
      assert ops[0..] == ops && ops[..0] + goal.1 == goal.1;
      IssueStands(node, ops, 0);
      while ii < |ops| && !stop
        invariant ii <= |ops| && |node| <= c.nodeTableSize
        invariant |node| + count == |old(node)| + src.count
        invariant goal == if stop then (node, ops) else IssueOutcome(node, ops, ii, c.nodeTableSize)
      {
        IssueStep(node, ops, ii, c.nodeTableSize);
        if |node| == c.nodeTableSize {
          stop := true;
        } else if ops[ii].Some? {
          var op := ops[ii].value;
          if op.inst.barIssue && |node| > 0 {
            stop := true;
          } else {
            ops, count := ops[ii := None], count - 1;
            node := node + [op];
            stop := op.inst.barIssue;
          }
        }
        ii := ii + 1;
      }
      IssueStands(node, ops, |ops|);
      assert goal == (node, ops);
      srcOut := Stage(ops, count);
    }

    /** What node_retire works on is as the machine has it. */
    ghost predicate Agrees(fe: FrontEnd, p: Pipe)
      reads this, fe, fe.pool
    {
      node == p.node && retOp == p.retOp && fe.seqOps == p.seqOps && fe.pool.Valid() && fe.pool.view == p.pool
    }

    /** node_retire: up to `width` ops from the head; the code's assertions on ret_op, in_node_list and the
        sequential list are what CanRetire and RetireAssertionsHold provide. */
    method NodeRetire(fe: FrontEnd, width: nat, finished: set<Slot>, recSched: set<Slot>, ghost p: Pipe)
      returns (ghost end: Pipe, ghost k: nat)
      requires CanRetire(p) && p.finished == finished && p.recSched == recSched && Agrees(fe, p)
      modifies this, fe.pool, fe`seqOps
      ensures Agrees(fe, end) && end == RetireUpTo(p, width)
      ensures RetiredOps(old(node), finished, recSched, width, node, k)
      ensures retOp == old(retOp) + k && SlotsFreed(old(fe.pool.view), old(node)[..k], fe.pool.view)
    {
      end, k := RetireUpToRetires(p, width);
      ghost var q, left := p, width;
      var count := 0;
      while count < width && node != [] && node[0].slot in finished && !node[0].offPath && node[0].slot !in recSched
        invariant count + left == width && CanRetire(q) && q.finished == finished && q.recSched == recSched
        invariant Agrees(fe, q) && RetireUpTo(q, left) == RetireUpTo(p, width)
      {
        ghost var m := left - 1;
        RetireUpToStep(q, left, m);
        RetireHead(fe, q);
        q, left := RetireOne(q), m;
        count := count + 1;
      }
    }

    /** One turn of that loop. */
    method RetireHead(fe: FrontEnd, ghost p: Pipe)
      requires Agrees(fe, p) && node != [] && p.seqOps != [] && InUse(p.pool, node[0].slot)
      modifies this, fe.pool, fe`seqOps
      ensures PoolInv(p.pool) && Agrees(fe, RetireOne(p))
    {
      retOp := retOp + 1;
      fe.seqOps := fe.seqOps[1..];
      fe.pool.FreeOp(node[0].slot);
      node := node[1..];
    }

    /** flush_window: survivors stay linked in order, the others leave the table. */
    method FlushWindow(r: nat) returns (freed: seq<Op>)
      modifies this`node
      ensures node == Kept(old(node), r) && freed == Flushed(old(node), r)
    {
      var all, ii := node, 0;
      freed := [];
      node := [];
      while ii < |all|
        invariant 0 <= ii <= |all| && all == old(node)
        invariant node == Kept(all[..ii], r) && freed == Flushed(all[..ii], r)
      {
        assert all[..ii + 1] == all[..ii] + [all[ii]];
        Snoc(all[..ii], all[ii], r);
        if Flush(all[ii], r) {
          freed := freed + [all[ii]];
        } else {
          node := node + [all[ii]];
        }
        ii := ii + 1;
      }
      assert all[..ii] == all;
    }
  }

  lemma FreeInTurn(p: Pool, a: seq<Op>, b: seq<Op>, c: seq<Op>, d: seq<Op>) returns (p1: Pool, p2: Pool, p3: Pool)
    requires PoolInv(p) && AllInUse(p, a + b + c + d)
    ensures AllInUse(p, a) && p1 == FreeAll(p, a)
    ensures PoolInv(p1) && AllInUse(p1, b) && p2 == FreeAll(p1, b)
    ensures PoolInv(p2) && AllInUse(p2, c) && p3 == FreeAll(p2, c)
    ensures PoolInv(p3) && AllInUse(p3, d) && FreeAll(p3, d) == FreeAll(p, a + b + c + d)
  {
    FreeAllConcat(p, a + b + c, d);
    FreeAllConcat(p, a + b, c);
    FreeAllConcat(p, a, b);
    p1 := FreeAll(p, a);
    p2 := FreeAll(p1, b);
    p3 := FreeAll(p2, c);
  }

  /** cmp_recover over the stages in the code's order, each handing its flushed ops to free_op; together
      they take the machine through its Recovery step, to q. */
  method CmpRecover(fe: FrontEnd, dec: StagePipe, mapp: StagePipe, nt: NodeTable, recoveryOp: Op, ghost p: Pipe)
    returns (ghost q: Pipe)
    requires p.pending == Some(recoveryOp) && PoolInv(p.pool) && AllInUse(p.pool, FlushOrder(p, recoveryOp.num))
    requires fe.Matches(p) && nt.node == p.node && dec.sds[..] == p.decPipe && mapp.sds[..] == p.mapPipe
    requires dec.sds != mapp.sds
    modifies fe, fe.pool, dec.sds, mapp.sds, nt`node
    ensures q == Recover(p)
    ensures fe.Matches(q) && nt.node == q.node && dec.sds[..] == q.decPipe && mapp.sds[..] == q.mapPipe
  {
    var r := recoveryOp.num;
    q := Recover(p);
    ghost var f0, f1 := Flushed(Live(p.ic.ops), r), Flushed(Flat(p.decPipe), r);
    ghost var f2, f3 := Flushed(Flat(p.mapPipe), r), Flushed(p.node, r);
    ghost var p1, p2, p3 := FreeInTurn(p.pool, f0, f1, f2, f3);
    var freed := fe.RecoverFrontEnd(recoveryOp);
    fe.pool.FreeEach(freed);
    freed := dec.RecoverInPlace(r);
    fe.pool.FreeEach(freed);
    freed := mapp.RecoverCollapsing(r);
    fe.pool.FreeEach(freed);
    freed := nt.FlushWindow(r);
    fe.pool.FreeEach(freed);
  }
}
