/** Wake-up lists beside the pipeline: over every run no wake-up is lost and none comes too early. */
module WakeUpRuns {
  import opened Ops
  import opened OpPool
  import opened Stages
  import opened Pipeline
  import opened PipelineSteps
  import opened PipelineRuns
  import opened DependenceMaps
  import opened MapRuns
  import opened WakeUp
  import opened WakeUpSteps

  /** The unique numbers of the valid ops. */
  function LiveMap(ops: seq<Op>): map<Slot, nat> {
    if ops == [] then map[] else LiveMap(ops[..|ops| - 1])[ops[|ops| - 1].slot := ops[|ops| - 1].unique]
  }

  lemma {:induction false} LiveMapIs(ops: seq<Op>)
    requires DistinctSlots(ops)
    ensures LiveIs(LiveMap(ops), ops)
  {
    if ops != [] {
      var rest, last := ops[..|ops| - 1], ops[|ops| - 1];
      LiveMapIs(rest);
      forall s, u: nat ensures IsLive(LiveMap(ops), s, u) <==> InFlight(ops, s, u) {
        if InFlight(rest, s, u) {
          var j :| 0 <= j < |rest| && rest[j].slot == s && rest[j].unique == u;
          assert ops[j] == rest[j];
        }
        assert ops[|rest|] == last;
        assert forall j :: 0 <= j < |rest| ==> ops[j] == rest[j];
      }
    }
  }

  /** What an op that is given back holds: its own instruction or its slot's last one. */
  function AbortedInst(f: Fetch): Inst {
    match f
    case Stop(stale) => stale
    case BreakBefore(inst) => inst
    case Take(inst) => inst
  }

  /** The ops reaching the last map stage are linked one after the other. */
  function LinkOps(w: Wake, live: map<Slot, nat>, ops: seq<Op>): Wake
    decreases |ops|
  {
    if ops == [] then w else LinkOps(LinkFrom(w, live, ops[0], 0), live, ops[1..])
  }

  lemma {:induction false} LinkOpsKeepInv(w: Wake, live: map<Slot, nat>, ops: seq<Op>, n: nat, k: nat, uniques: nat)
    requires WakeInv(w, ops, n, 0, uniques) && Window(ops, uniques) && LiveIs(live, ops) && n <= k <= |ops|
    ensures WakeInv(LinkOps(w, live, ops[n..k]), ops, k, 0, uniques)
    decreases k - n
  {
    if n < k {
      LinkKeepsInv(w, live, ops, n, 0, uniques);
      LinkOpsKeepInv(LinkFrom(w, live, ops[n], 0), live, ops, n + 1, k, uniques);
      assert ops[n..k][1..] == ops[n + 1..k];
    }
  }

  /** A pipeline step, with the sources the maps give a fetched op, or an op signalling a result. */
  datatype WakeEvent = Core(e: Event, srcs: seq<Option<Src>>) | Signals(op: Op, dep: DepType)

  ghost predicate WakeEnabled(c: Config, p: Pipe, w: Wake, we: WakeEvent) {
    match we
    case Signals(op, _) => op in p.seqOps
    case Core(e, srcs) =>
      && Enabled(c, p, e)
      && (e.FetchOp? && e.fetch.Take? ==> GoodSources(FetchedOp(p, e.fetch.inst), srcs))
      && (e == Retire ==> Served(w, p.node[0]))
  }

  ghost function PipeAfter(c: Config, p: Pipe, we: WakeEvent): Pipe
    requires Inv(c, p) && (we.Core? ==> Enabled(c, p, we.e))
  {
    match we
    case Signals(_, _) => p
    case Core(e, _) => Step(c, p, e)
  }

  ghost function WakeAfter(c: Config, p: Pipe, w: Wake, we: WakeEvent): Wake
    requires Inv(c, p) && (we.Core? ==> Enabled(c, p, we.e))
  {
    match we
    case Signals(op, t) => Signal(w, LiveMap(p.seqOps), op.slot, t)
    case Core(FetchOp(Take(inst)), srcs) => NewOp(w, FetchedOp(p, inst), srcs)
    case Core(FetchOp(f), _) => FreeList(NewOp(w, FetchedOp(p, AbortedInst(f)), []), NextSlot(p.pool))
    case Core(MapOps, _) => LinkOps(w, LiveMap(p.seqOps), NewlyLinked(c, p))
    case Core(Retire, _) => FreeList(w, p.node[0].slot)
    case Core(Recovery, _) => FreeLists(w, FlushOrder(p, p.pending.value.num))
    case _ => w
  }

  ghost function NewlyLinked(c: Config, p: Pipe): seq<Op>
    requires Inv(c, p)
  {
    if p.mapPipe[0].count > 0 then [] else Live(Shift(p.mapPipe + [p.decPipe[0]])[0].ops)
  }

  ghost predicate Woken(p: Pipe, w: Wake) {
    WakeInv(w, p.seqOps, |p.linked|, 0, p.uniqueCount)
  }

  lemma WindowUniques(retired: seq<Op>, ops: seq<Op>, u: nat)
    requires IncreasingUniques(retired + ops) && forall i :: 0 <= i < |retired + ops| ==> (retired + ops)[i].unique < u
    ensures IncreasingUniques(ops) && forall i :: 0 <= i < |ops| ==> ops[i].unique < u
    ensures forall i :: 0 <= i < |retired| ==> retired[i].unique < u
  {
    var all := retired + ops;
    assert forall i :: 0 <= i < |ops| ==> ops[i] == all[|retired| + i];
    assert forall i :: 0 <= i < |retired| ==> retired[i] == all[i];
  }

  lemma PipeWindow(c: Config, p: Pipe)
    requires Inv(c, p)
    ensures Window(p.seqOps, p.uniqueCount) && p.linked <= p.seqOps && LiveIs(LiveMap(p.seqOps), p.seqOps)
  {
    LinkedExactlyOnce(c, p);
    LiveMapIs(p.seqOps);
    WindowUniques(p.retired, p.seqOps, p.uniqueCount);
  }

  lemma FetchKeepsWoken(p: Pipe, q: Pipe, w: Wake, op: Op, srcs: seq<Option<Src>>)
    requires Window(p.seqOps, p.uniqueCount) && |p.linked| <= |p.seqOps| && FreshSlot(op, p.seqOps)
    requires Woken(p, w) && GoodSources(op, srcs) && op.unique == p.uniqueCount
    requires q.seqOps == p.seqOps + [op] && q.linked == p.linked && q.uniqueCount == p.uniqueCount + 1
    ensures Woken(q, NewOp(w, op, srcs))
  {
    NewOpKeepsInv(w, p.seqOps, |p.linked|, p.uniqueCount, op, srcs);
  }

  lemma FetchIsWoken(c: Config, p: Pipe, w: Wake, inst: Inst, srcs: seq<Option<Src>>)
    requires Inv(c, p) && p.ic.count < c.issueWidth && Woken(p, w) && GoodSources(FetchedOp(p, inst), srcs)
    ensures Woken(FetchOne(p, inst), NewOp(w, FetchedOp(p, inst), srcs))
  {
    PipeWindow(c, p);
    FreshFetch(p, FetchedOp(p, inst));
    FetchKeepsWoken(p, FetchOne(p, inst), w, FetchedOp(p, inst), srcs);
  }

  lemma AbortKeepsWoken(p: Pipe, w: Wake, op: Op)
    requires Pooling(p) && Woken(p, w) && op.slot == NextSlot(p.pool)
    ensures Woken(FetchAbort(p), FreeList(NewOp(w, op, []), op.slot))
  {
    FreshFetch(p, op);
    AbortKeepsWakeInv(w, p.seqOps, |p.linked|, p.uniqueCount, op);
  }

  lemma NewlyLinkedOps(c: Config, p: Pipe)
    requires Inv(c, p)
    ensures var q := MapCycle(p);
      && q.seqOps == p.seqOps && q.uniqueCount == p.uniqueCount
      && |p.linked| <= |q.linked| <= |p.seqOps| && NewlyLinked(c, p) == p.seqOps[|p.linked|..|q.linked|]
  {
    var q := MapCycle(p);
    StepKeepsInv(c, p, MapOps);
    LinkedExactlyOnce(c, q);
    assert q.linked == p.linked + NewlyLinked(c, p);
    assert q.linked[|p.linked|..] == NewlyLinked(c, p);
    assert q.linked == p.seqOps[..|q.linked|];
  }

  lemma MapKeepsWoken(c: Config, p: Pipe, w: Wake)
    requires Inv(c, p) && Woken(p, w)
    ensures Woken(MapCycle(p), LinkOps(w, LiveMap(p.seqOps), NewlyLinked(c, p)))
  {
    PipeWindow(c, p);
    NewlyLinkedOps(c, p);
    LinkOpsKeepInv(w, LiveMap(p.seqOps), p.seqOps, |p.linked|, |MapCycle(p).linked|, p.uniqueCount);
  }

  lemma RetireKeepsWoken(c: Config, p: Pipe, w: Wake)
    requires Inv(c, p) && Woken(p, w) && WakeEnabled(c, p, w, Core(Retire, []))
    ensures Woken(Step(c, p, Retire), FreeList(w, p.node[0].slot))
  {
    PipeWindow(c, p);
    RetireAssertionsHold(c, p);
    assert p.linked != [];
    RetireKeepsWakeInv(w, p.seqOps, |p.linked|, p.uniqueCount);
  }

  lemma RecoveryKeepsWoken(c: Config, p: Pipe, w: Wake)
    requires Inv(c, p) && Woken(p, w) && p.pending.Some?
    ensures Woken(Step(c, p, Recovery), FreeLists(w, FlushOrder(p, p.pending.value.num)))
  {
    var r := p.pending.value.num;
    PipeWindow(c, p);
    var k := RecoveryCutsWindow(c, p);
    CutKeepsWakeInv(w, p.seqOps, |p.linked|, p.uniqueCount, k, FlushOrder(p, r));
    KeptLinked(c, p, k);
    SameWindow(c, p, p.seqOps[..k]);
  }

  lemma KeptLinked(c: Config, p: Pipe, k: nat)
    requires Inv(c, p) && p.pending.Some? && k <= |p.seqOps|
    requires RecoverSeqOpList(p.seqOps, p.pending.value.num) == p.seqOps[..k]
    ensures var q := Step(c, p, Recovery); |q.linked| == Least(|p.linked|, k) && q.uniqueCount == p.uniqueCount
  {
    PipeWindow(c, p);
    KeptPrefix(p.seqOps, |p.linked|, p.retOp, p.pending.value.num, k);
    assert p.linked == p.seqOps[..|p.linked|];
    RecoveredLinks(c, p);
  }

  lemma RecoveredLinks(c: Config, p: Pipe)
    requires Inv(c, p) && p.pending.Some?
    ensures var q := Step(c, p, Recovery);
      q.linked == Kept(p.linked, p.pending.value.num) && q.uniqueCount == p.uniqueCount
  {
  }

  /** A flush keeps of a prefix what it keeps of the whole, as far as the prefix goes. */
  lemma KeptPrefix(ops: seq<Op>, n: nat, first: nat, r: nat, k: nat)
    requires Consecutive(ops, first) && n <= |ops| && k <= |ops| && RecoverSeqOpList(ops, r) == ops[..k]
    ensures |Kept(ops[..n], r)| == Least(n, k)
  {
    KeptIsPrefix(ops[..n], first, r);
    KeptIsPrefix(ops, first, r);
    ClipIsKept(ops, first, r);
    assert |ops[..k]| == k;
  }

  lemma SignalKeepsWoken(c: Config, p: Pipe, w: Wake, op: Op, t: DepType)
    requires Inv(c, p) && Woken(p, w) && op in p.seqOps
    ensures Woken(p, Signal(w, LiveMap(p.seqOps), op.slot, t))
  {
    PipeWindow(c, p);
    var j := IndexOf(p.seqOps, op);
    SignalKeepsInv(w, LiveMap(p.seqOps), p.seqOps, |p.linked|, 0, p.uniqueCount, j, t);
  }

  lemma StepKeepsWoken(c: Config, p: Pipe, w: Wake, we: WakeEvent)
    requires Inv(c, p) && WakeEnabled(c, p, w, we) && Woken(p, w)
    ensures Woken(PipeAfter(c, p, we), WakeAfter(c, p, w, we))
  {
    match we
    case Signals(op, t) => SignalKeepsWoken(c, p, w, op, t);
    case Core(e, srcs) =>
      match e {
        case FetchOp(Take(inst)) => FetchIsWoken(c, p, w, inst, srcs);
        case FetchOp(f) => AbortKeepsWoken(p, w, FetchedOp(p, AbortedInst(f)));
        case MapOps => MapKeepsWoken(c, p, w);
        case Retire => RetireKeepsWoken(c, p, w);
        case Recovery => RecoveryKeepsWoken(c, p, w);
        case _ =>
      }
  }

  lemma PipeAfterKeepsInv(c: Config, p: Pipe, we: WakeEvent)
    requires Inv(c, p) && (we.Core? ==> Enabled(c, p, we.e))
    ensures Inv(c, PipeAfter(c, p, we))
  {
    if we.Core? {
      StepKeepsInv(c, p, we.e);
    }
  }

  /** A run of the core with its wake-up lists. */
  ghost predicate WakesReach(c: Config, p: Pipe, w: Wake, es: seq<WakeEvent>, end: Pipe, wakeEnd: Wake)
    requires Inv(c, p)
    decreases |es|
  {
    if es == [] then p == end && w == wakeEnd
    else
      && WakeEnabled(c, p, w, es[0])
      && (PipeAfterKeepsInv(c, p, es[0]);
          WakesReach(c, PipeAfter(c, p, es[0]), WakeAfter(c, p, w, es[0]), es[1..], end, wakeEnd))
  }

  lemma {:induction false} RunKeepsWoken(c: Config, p: Pipe, w: Wake, es: seq<WakeEvent>, end: Pipe, wakeEnd: Wake)
    requires Inv(c, p) && Woken(p, w) && WakesReach(c, p, w, es, end, wakeEnd)
    ensures Inv(c, end) && Woken(end, wakeEnd)
    decreases |es|
  {
    if es != [] {
      PipeAfterKeepsInv(c, p, es[0]);
      StepKeepsWoken(c, p, w, es[0]);
      RunKeepsWoken(c, PipeAfter(c, p, es[0]), WakeAfter(c, p, w, es[0]), es[1..], end, wakeEnd);
    }
  }

  /** init_map: no list, and a first batch of free entries. */
  function InitWake(): Wake {
    Wake(map[], map[], map[], map[], WAKE_UP_ENTRIES_INC, 0, WAKE_UP_ENTRIES_INC)
  }

  ghost predicate WakesReachable(c: Config, decodeDepth: nat, mapDepth: nat, es: seq<WakeEvent>, p: Pipe, w: Wake)
    requires decodeDepth > 0 && mapDepth > 0
  {
    InitInv(c, decodeDepth, mapDepth);
    WakesReach(c, Init(c, decodeDepth, mapDepth), InitWake(), es, p, w)
  }

  lemma ReachedWoken(c: Config, decodeDepth: nat, mapDepth: nat, es: seq<WakeEvent>, p: Pipe, w: Wake)
    requires decodeDepth > 0 && mapDepth > 0 && WakesReachable(c, decodeDepth, mapDepth, es, p, w)
    ensures Inv(c, p) && Woken(p, w)
  {
    InitInv(c, decodeDepth, mapDepth);
    RunKeepsWoken(c, Init(c, decodeDepth, mapDepth), InitWake(), es, p, w);
  }

  /** No lost and no premature wake-ups: in every reachable state, bit k of an op that has passed the map
      stage is set exactly when its source k is still in flight and has not signalled that type. */
  lemma NotReadyIffWaiting(c: Config, decodeDepth: nat, mapDepth: nat, es: seq<WakeEvent>, p: Pipe, w: Wake, i: nat,
                           k: nat)
    requires decodeDepth > 0 && mapDepth > 0 && WakesReachable(c, decodeDepth, mapDepth, es, p, w) && i < |p.linked|
    ensures p.linked <= p.seqOps
    ensures k in NotReady(w, p.linked[i].slot)
      <==> k < |Srcs(w, p.linked[i].slot)| && Waiting(w, p.seqOps, Srcs(w, p.linked[i].slot)[k])
  {
    ReachedWoken(c, decodeDepth, mapDepth, es, p, w);
    PipeWindow(c, p);
    assert p.linked[i] == p.seqOps[i] && Linked(i, k, |p.linked|, 0);
  }

  /** Before the map stage nothing clears a bit: a waiter left behind by an earlier user of the slot is
      never taken for the op now in it. */
  lemma UnlinkedNotWoken(c: Config, decodeDepth: nat, mapDepth: nat, es: seq<WakeEvent>, p: Pipe, w: Wake, i: nat,
                         k: nat)
    requires decodeDepth > 0 && mapDepth > 0 && WakesReachable(c, decodeDepth, mapDepth, es, p, w)
    requires |p.linked| <= i < |p.seqOps|
    ensures k in NotReady(w, p.seqOps[i].slot) <==> k < |Srcs(w, p.seqOps[i].slot)|
  {
    ReachedWoken(c, decodeDepth, mapDepth, es, p, w);
    assert !Linked(i, k, |p.linked|, 0);
  }

  /** The entry pool: free and active entries make up the pool, and the active ones are those on the
      lists of the ops in flight. */
  lemma WakeEntriesConserved(c: Config, decodeDepth: nat, mapDepth: nat, es: seq<WakeEvent>, p: Pipe, w: Wake)
    requires decodeDepth > 0 && mapDepth > 0 && WakesReachable(c, decodeDepth, mapDepth, es, p, w)
    ensures w.free + w.active == w.entries && w.active == TotalWaiters(w, p.seqOps)
    ensures forall s :: List(w, s) != [] ==> exists j :: 0 <= j < |p.seqOps| && p.seqOps[j].slot == s
  {
    ReachedWoken(c, decodeDepth, mapDepth, es, p, w);
  }
}
