/** map.c: wake_up_signaled holds what the op itself has signalled, whoever used its slot before. */
module WakeUpSignals {
  import opened Ops
  import opened OpPool
  import opened Pipeline
  import opened PipelineSteps
  import opened PipelineRuns
  import opened DependenceMaps
  import opened MapRuns
  import opened WakeUp
  import opened WakeUpSteps
  import opened WakeUpRuns

  /** Of the ops in flight, those have a type signalled that sent it in the events so far. */
  ghost predicate SentIsSignaled(ops: seq<Op>, uniques: nat, w: Wake, done: seq<WakeEvent>) {
    && (forall op, t :: op in ops ==> (t in Signaled(w, op.slot) <==> Signals(op, t) in done))
    && forall j :: 0 <= j < |done| && done[j].Signals? ==> done[j].op.unique < uniques
  }

  lemma {:induction false} LinkFromSignaled(w: Wake, live: map<Slot, nat>, op: Op, ii: nat)
    requires ii <= |Srcs(w, op.slot)|
    ensures LinkFrom(w, live, op, ii).signaled == w.signaled
    decreases |Srcs(w, op.slot)| - ii
  {
    if ii < |Srcs(w, op.slot)| {
      var v, next := LinkSrc(w, live, op, ii), ii + 1;
      LinkFromSignaled(v, live, op, next);
    }
  }

  lemma {:induction false} LinkOpsSignaled(w: Wake, live: map<Slot, nat>, ops: seq<Op>)
    ensures LinkOps(w, live, ops).signaled == w.signaled
    decreases |ops|
  {
    if ops != [] {
      LinkFromSignaled(w, live, ops[0], 0);
      LinkOpsSignaled(LinkFrom(w, live, ops[0], 0), live, ops[1..]);
    }
  }

  lemma {:induction false} FreeListsSignaled(w: Wake, ops: seq<Op>)
    ensures FreeLists(w, ops).signaled == w.signaled
  {
    if ops != [] {
      FreeListsSignaled(w, ops[..|ops| - 1]);
    }
  }

  /** Only a signal and a new op change what is signalled. */
  lemma StepSignaled(c: Config, p: Pipe, w: Wake, we: WakeEvent, s: Slot)
    requires Inv(c, p) && WakeEnabled(c, p, w, we)
    ensures Signaled(WakeAfter(c, p, w, we), s) ==
      match we
      case Signals(op, t) => if s == op.slot then Signaled(w, s) + {t} else Signaled(w, s)
      case Core(e, _) => if e.FetchOp? && s == NextSlot(p.pool) then {} else Signaled(w, s)
  {
    match we
    case Signals(op, t) => WakeEachBits(w, LiveMap(p.seqOps), t, List(w, op.slot), 0, 0);
    case Core(MapOps, _) => LinkOpsSignaled(w, LiveMap(p.seqOps), NewlyLinked(c, p));
    case Core(Recovery, _) => FreeListsSignaled(w, FlushOrder(p, p.pending.value.num));
    case Core(_, _) =>
  }

  /** A step leaves the ops in flight, but for the one it fetches. */
  lemma StepWindow(c: Config, p: Pipe, we: WakeEvent, op: Op)
    requires Inv(c, p) && (we.Core? ==> Enabled(c, p, we.e)) && op in PipeAfter(c, p, we).seqOps
    ensures op in p.seqOps || (we.Core? && we.e.FetchOp? && we.e.fetch.Take? && op == FetchedOp(p, we.e.fetch.inst))
    ensures p.uniqueCount <= PipeAfter(c, p, we).uniqueCount
    ensures we.Core? && we.e.FetchOp? && we.e.fetch.Take? ==> PipeAfter(c, p, we).uniqueCount == p.uniqueCount + 1
  {
    if we.Core? && we.e.Recovery? {
      var k := RecoveryCutsWindow(c, p);
      SameWindow(c, p, p.seqOps[..k]);
    }
  }

  lemma StepUniques(c: Config, p: Pipe, we: WakeEvent)
    requires Inv(c, p) && (we.Core? ==> Enabled(c, p, we.e))
    ensures p.uniqueCount <= PipeAfter(c, p, we).uniqueCount
  {
  }

  lemma StepKeepsSent(c: Config, p: Pipe, w: Wake, we: WakeEvent, done: seq<WakeEvent>)
    requires Inv(c, p) && WakeEnabled(c, p, w, we) && SentIsSignaled(p.seqOps, p.uniqueCount, w, done)
    ensures SentIsSignaled(PipeAfter(c, p, we).seqOps, PipeAfter(c, p, we).uniqueCount, WakeAfter(c, p, w, we),
                           done + [we])
  {
    var q, v := PipeAfter(c, p, we), WakeAfter(c, p, w, we);
    WindowUniques(p.retired, p.seqOps, p.uniqueCount);
    forall op, t | op in q.seqOps ensures t in Signaled(v, op.slot) <==> Signals(op, t) in done + [we] {
      OpKeepsSent(c, p, w, we, done, op, t);
    }
    StepUniques(c, p, we);
    forall j | 0 <= j < |done + [we]| && (done + [we])[j].Signals? ensures (done + [we])[j].op.unique < q.uniqueCount {
      assert j < |done| ==> (done + [we])[j] == done[j];
      if j == |done| {
        var i :| 0 <= i < |p.seqOps| && p.seqOps[i] == we.op;
      }
    }
  }

  lemma OldOpKeepsSent(c: Config, p: Pipe, w: Wake, we: WakeEvent, op: Op, t: DepType)
    requires Inv(c, p) && WakeEnabled(c, p, w, we) && op in p.seqOps
    ensures t in Signaled(WakeAfter(c, p, w, we), op.slot)
      <==> t in Signaled(w, op.slot) || we == Signals(op, t)
  {
    StepSignaled(c, p, w, we, op.slot);
    var i :| 0 <= i < |p.seqOps| && p.seqOps[i] == op;
    if we.Core? {
      FreshFetch(p, op.(slot := NextSlot(p.pool)));
    } else {
      var j :| 0 <= j < |p.seqOps| && p.seqOps[j] == we.op;
    }
  }

  lemma OpKeepsSent(c: Config, p: Pipe, w: Wake, we: WakeEvent, done: seq<WakeEvent>, op: Op, t: DepType)
    requires Inv(c, p) && WakeEnabled(c, p, w, we) && SentIsSignaled(p.seqOps, p.uniqueCount, w, done)
    requires op in PipeAfter(c, p, we).seqOps
    ensures t in Signaled(WakeAfter(c, p, w, we), op.slot) <==> Signals(op, t) in done + [we]
  {
    StepWindow(c, p, we, op);
    assert Signals(op, t) in done + [we] <==> Signals(op, t) in done || we == Signals(op, t);
    if op in p.seqOps {
      OldOpKeepsSent(c, p, w, we, op, t);
    } else {
      StepSignaled(c, p, w, we, op.slot);
      forall j | 0 <= j < |done| ensures done[j] != Signals(op, t) {
      }
    }
  }

  lemma NextSent(c: Config, p: Pipe, w: Wake, done: seq<WakeEvent>, es: seq<WakeEvent>, end: Pipe, wakeEnd: Wake)
    returns (p1: Pipe, w1: Wake)
    requires es != [] && Inv(c, p) && WakesReach(c, p, w, es, end, wakeEnd)
    requires SentIsSignaled(p.seqOps, p.uniqueCount, w, done)
    ensures Inv(c, p1) && WakesReach(c, p1, w1, es[1..], end, wakeEnd)
    ensures SentIsSignaled(p1.seqOps, p1.uniqueCount, w1, done + [es[0]])
  {
    PipeAfterKeepsInv(c, p, es[0]);
    StepKeepsSent(c, p, w, es[0], done);
    p1, w1 := PipeAfter(c, p, es[0]), WakeAfter(c, p, w, es[0]);
  }

  lemma MoveOne(done: seq<WakeEvent>, es: seq<WakeEvent>)
    requires es != []
    ensures done + [es[0]] + es[1..] == done + es
  {
  }

  lemma {:induction false} RunKeepsSent(c: Config, p: Pipe, w: Wake, done: seq<WakeEvent>, es: seq<WakeEvent>,
                                        all: seq<WakeEvent>, end: Pipe, wakeEnd: Wake)
    requires Inv(c, p) && WakesReach(c, p, w, es, end, wakeEnd) && SentIsSignaled(p.seqOps, p.uniqueCount, w, done)
    requires all == done + es
    ensures SentIsSignaled(end.seqOps, end.uniqueCount, wakeEnd, all)
    decreases |es|
  {
    if es == [] {
      assert all == done;
    } else {
      var p1, w1 := NextSent(c, p, w, done, es, end, wakeEnd);
      var done1, es1 := done + [es[0]], es[1..];
      MoveOne(done, es);
      RunKeepsSent(c, p1, w1, done1, es1, all, end, wakeEnd);
    }
  }

  /** Over every run: an op in flight has a dependence type signalled if and only if it has signalled that type
      itself. What former users of its slot signalled is gone, and nothing is signalled on its behalf. */
  lemma SignaledIffSent(c: Config, decodeDepth: nat, mapDepth: nat, es: seq<WakeEvent>, p: Pipe, w: Wake, op: Op,
                        t: DepType)
    requires decodeDepth > 0 && mapDepth > 0 && WakesReachable(c, decodeDepth, mapDepth, es, p, w) && op in p.seqOps
    ensures t in Signaled(w, op.slot) <==> Signals(op, t) in es
  {
    InitInv(c, decodeDepth, mapDepth);
    RunKeepsSent(c, Init(c, decodeDepth, mapDepth), InitWake(), [], es, es, p, w);
  }
}
