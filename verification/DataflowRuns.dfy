/** Runs of pipeline, maps and wake-up lists together: readiness is dataflow in program order. */
module DataflowRuns {
  import opened Ops
  import opened OpPool
  import opened Stages
  import opened Pipeline
  import opened PipelineSteps
  import opened PipelineRuns
  import opened StoreMap
  import opened DependenceMaps
  import opened RegisterMap
  import opened MapRuns
  import opened WakeUp
  import opened WakeUpSteps
  import opened WakeUpRuns
  import opened Dataflow

  // ----- the invariant on recorded sources

  /** Of the ops in flight, exactly the producers of op are among its sources. */
  ghost predicate SrcsRight(before: seq<Op>, op: Op, oooStores: bool, srcs: seq<Option<Src>>, inFlight: seq<Op>) {
    forall w, dep :: w in inFlight ==> (HasSrc(srcs, w, dep) <==> Producer(before, op, oooStores, w, dep))
  }

  ghost predicate DataInv(retired: seq<Op>, ops: seq<Op>, w: Wake, oooStores: bool) {
    forall i :: 0 <= i < |ops| ==> SrcsRight(retired + ops[..i], ops[i], oooStores, Srcs(w, ops[i].slot), ops)
  }

  lemma ProducerIsBefore(before: seq<Op>, op: Op, oooStores: bool, w: Op, dep: DepType)
    requires Producer(before, op, oooStores, w, dep)
    ensures w in before
  {
  }

  /** The sources of v are those of w, but for sources that are not in flight. */
  ghost predicate SameLiveSrcs(ops: seq<Op>, w: Wake, v: Wake) {
    forall s, x, dep :: x in ops ==> (HasSrc(Srcs(v, s), x, dep) <==> HasSrc(Srcs(w, s), x, dep))
  }

  lemma SameSrcsKeep(retired: seq<Op>, ops: seq<Op>, w: Wake, v: Wake, oooStores: bool)
    requires DataInv(retired, ops, w, oooStores) && SameLiveSrcs(ops, w, v)
    ensures DataInv(retired, ops, v, oooStores)
  {
    forall i | 0 <= i < |ops|
      ensures SrcsRight(retired + ops[..i], ops[i], oooStores, Srcs(v, ops[i].slot), ops) {
      assert SrcsRight(retired + ops[..i], ops[i], oooStores, Srcs(w, ops[i].slot), ops);
    }
  }

  lemma RetireKeepsData(retired: seq<Op>, ops: seq<Op>, w: Wake, oooStores: bool)
    requires DataInv(retired, ops, w, oooStores) && ops != []
    ensures DataInv(retired + [ops[0]], ops[1..], w, oooStores)
  {
    var rest := ops[1..];
    forall i | 0 <= i < |rest|
      ensures SrcsRight(retired + [ops[0]] + rest[..i], rest[i], oooStores, Srcs(w, rest[i].slot), rest) {
      assert retired + [ops[0]] + rest[..i] == retired + ops[..i + 1];
      assert SrcsRight(retired + ops[..i + 1], ops[i + 1], oooStores, Srcs(w, ops[i + 1].slot), ops);
      assert forall x :: x in rest ==> x in ops;
    }
  }

  lemma CutKeepsData(retired: seq<Op>, ops: seq<Op>, w: Wake, oooStores: bool, k: nat)
    requires DataInv(retired, ops, w, oooStores) && k <= |ops|
    ensures DataInv(retired, ops[..k], w, oooStores)
  {
    var kept := ops[..k];
    forall i | 0 <= i < k
      ensures SrcsRight(retired + kept[..i], kept[i], oooStores, Srcs(w, kept[i].slot), kept) {
      assert kept[..i] == ops[..i];
      assert SrcsRight(retired + ops[..i], ops[i], oooStores, Srcs(w, ops[i].slot), ops);
      assert forall x :: x in kept ==> x in ops;
    }
  }

  /** A new op is nobody's source: it is younger than all others. */
  lemma NewOpIsNoSource(before: seq<Op>, op: Op, oooStores: bool, srcs: seq<Option<Src>>, last: Op, dep: DepType)
    requires forall k :: 0 <= k < |srcs| && srcs[k].Some? ==> srcs[k].value.unique < last.unique
    requires forall j :: 0 <= j < |before| ==> before[j].unique < last.unique
    ensures !HasSrc(srcs, last, dep) && !Producer(before, op, oooStores, last, dep)
  {
    assert last !in before;
    if Producer(before, op, oooStores, last, dep) {
      ProducerIsBefore(before, op, oooStores, last, dep);
    }
  }

  ghost predicate OlderThan(ops: seq<Op>, u: nat) {
    forall j :: 0 <= j < |ops| ==> ops[j].unique < u
  }

  lemma FetchKeepsData(retired: seq<Op>, ops: seq<Op>, w: Wake, oooStores: bool, op: Op, srcs: seq<Option<Src>>)
    requires DataInv(retired, ops, w, oooStores) && OlderSources(w, ops) && OlderThan(retired, op.unique)
    requires OlderThan(ops, op.unique) && FreshSlot(op, ops) && GoodSources(op, srcs)
    requires SrcsRight(retired + ops, op, oooStores, srcs, ops)
    ensures DataInv(retired, ops + [op], NewOp(w, op, srcs), oooStores)
  {
    var all, v := ops + [op], NewOp(w, op, srcs);
    forall i | 0 <= i < |all|
      ensures SrcsRight(retired + all[..i], all[i], oooStores, Srcs(v, all[i].slot), all) {
      assert all[..i] == ops[..i];
      assert i == |ops| ==> all[..i] == ops;
      if i < |ops| {
        assert all[i] == ops[i] && ops[i].slot != op.slot;
        assert SrcsRight(retired + ops[..i], ops[i], oooStores, Srcs(w, ops[i].slot), ops);
        forall k | 0 <= k < |Srcs(w, ops[i].slot)| && Srcs(w, ops[i].slot)[k].Some?
          ensures Srcs(w, ops[i].slot)[k].value.unique < op.unique {
          assert SrcOf(w, ops, i, k).Some?;
        }
      }
      forall dep
        ensures !HasSrc(Srcs(v, all[i].slot), op, dep) && !Producer(retired + all[..i], all[i], oooStores, op, dep) {
        NewOpIsNoSource(retired + all[..i], all[i], oooStores, Srcs(v, all[i].slot), op, dep);
      }
    }
  }

  // ----- what the steps of the wake-up lists do to the sources

  lemma LinkSrcSrcs(w: Wake, live: map<Slot, nat>, op: Op, ii: nat, s: Slot, src: Src)
    requires ii < |Srcs(w, op.slot)| && IsLive(live, src.op, src.unique)
    ensures Some(src) in Srcs(LinkSrc(w, live, op, ii), s) <==> Some(src) in Srcs(w, s)
  {
    var v := LinkSrc(w, live, op, ii);
    var a, b := Srcs(w, s), Srcs(v, s);
    assert b == a || (s == op.slot && a[ii] != Some(src) && b == a[ii := None]);
    if Some(src) in a {
      var k :| 0 <= k < |a| && a[k] == Some(src);
      assert b[k] == Some(src);
    }
    if Some(src) in b {
      var k :| 0 <= k < |b| && b[k] == Some(src);
      assert a[k] == Some(src);
    }
  }

  lemma {:induction false} LinkFromSrcs(w: Wake, live: map<Slot, nat>, op: Op, ii: nat, s: Slot, src: Src)
    requires ii <= |Srcs(w, op.slot)| && IsLive(live, src.op, src.unique)
    ensures Some(src) in Srcs(LinkFrom(w, live, op, ii), s) <==> Some(src) in Srcs(w, s)
    decreases |Srcs(w, op.slot)| - ii
  {
    if ii < |Srcs(w, op.slot)| {
      LinkSrcSrcs(w, live, op, ii, s, src);
      LinkFromSrcs(LinkSrc(w, live, op, ii), live, op, ii + 1, s, src);
    }
  }

  lemma {:induction false} LinkOpsSrcs(w: Wake, live: map<Slot, nat>, ops: seq<Op>, s: Slot, src: Src)
    requires IsLive(live, src.op, src.unique)
    ensures Some(src) in Srcs(LinkOps(w, live, ops), s) <==> Some(src) in Srcs(w, s)
    decreases |ops|
  {
    if ops != [] {
      LinkFromSrcs(w, live, ops[0], 0, s, src);
      LinkOpsSrcs(LinkFrom(w, live, ops[0], 0), live, ops[1..], s, src);
    }
  }

  lemma LinkingKeepsSrcs(w: Wake, window: seq<Op>, ops: seq<Op>)
    requires DistinctSlots(window)
    ensures SameLiveSrcs(window, w, LinkOps(w, LiveMap(window), ops))
  {
    LiveMapIs(window);
    forall s, x, dep | x in window
      ensures HasSrc(Srcs(LinkOps(w, LiveMap(window), ops), s), x, dep) <==> HasSrc(Srcs(w, s), x, dep) {
      var j :| 0 <= j < |window| && window[j] == x;
      assert InFlight(window, x.slot, x.unique);
      LinkOpsSrcs(w, LiveMap(window), ops, s, Src(x.slot, x.unique, dep));
    }
  }

  lemma {:induction false} WakeEachSrcs(w: Wake, live: map<Slot, nat>, t: DepType, es: seq<Waiter>)
    ensures WakeEach(w, live, t, es).srcs == w.srcs
  {
    if es != [] {
      WakeEachSrcs(w, live, t, es[..|es| - 1]);
    }
  }

  lemma {:induction false} FreeListsSrcs(w: Wake, ops: seq<Op>)
    ensures FreeLists(w, ops).srcs == w.srcs
  {
    if ops != [] {
      FreeListsSrcs(w, ops[..|ops| - 1]);
    }
  }

  // ----- runs

  /** A step of the pipeline, with the hash table the load dependences of a fetched op are read from, or an op
      signalling a result. */
  datatype FlowEvent = Flow(e: Event, h: Hash) | Result(op: Op, dep: DepType)

  datatype FlowState = FlowState(p: Pipe, v: View, w: Wake)

  predicate TakesOp(e: Event) { e.FetchOp? && e.fetch.Take? }

  ghost predicate FlowEnabled(c: Config, s: FlowState, fe: FlowEvent) {
    match fe
    case Result(op, _) => op in s.p.seqOps
    case Flow(e, h) =>
      Enabled(c, s.p, e) && (TakesOp(e) ==> HashShows(h, s.v)) && (e == Retire ==> Served(s.w, s.p.node[0]))
  }

  /** The step as the wake-up lists see it: a fetched op comes with the sources the maps give it. */
  ghost function AsWake(s: FlowState, fe: FlowEvent, oooStores: bool): WakeEvent {
    match fe
    case Result(op, dep) => Signals(op, dep)
    case Flow(e, h) =>
      WakeEvent.Core(e,
        if TakesOp(e) then Recorded(s.p.seqOps, s.v, h, FetchedOp(s.p, e.fetch.inst), oooStores) else [])
  }

  ghost predicate FlowInv(c: Config, s: FlowState, oooStores: bool) {
    && Inv(c, s.p) && MapInv(s.v, s.p.retired, s.p.seqOps) && Woken(s.p, s.w)
    && DataInv(s.p.retired, s.p.seqOps, s.w, oooStores)
  }

  ghost function FlowStep(c: Config, s: FlowState, fe: FlowEvent, oooStores: bool): FlowState
    requires FlowInv(c, s, oooStores) && FlowEnabled(c, s, fe)
  {
    var we := AsWake(s, fe, oooStores);
    FlowState(PipeAfter(c, s.p, we), if fe.Flow? then MapStep(c, s.p, s.v, fe.e) else s.v, WakeAfter(c, s.p, s.w, we))
  }

  lemma WindowOlder(c: Config, p: Pipe)
    requires Inv(c, p)
    ensures OlderThan(p.retired, p.uniqueCount) && OlderThan(p.seqOps, p.uniqueCount)
  {
    WindowUniques(p.retired, p.seqOps, p.uniqueCount);
  }

  lemma SlotSrcsOlder(ops: seq<Op>, slots: seq<Slot>, op: Op)
    requires OlderThan(ops, op.unique)
    ensures GoodSources(op, SlotSrcs(ops, slots))
  {
    var ls := SlotSrcs(ops, slots);
    forall k | 0 <= k < |ls| && ls[k].Some? ensures ls[k].value.unique < op.unique {
      var x := OpAt(ops, slots[k]).value;
      var j :| 0 <= j < |ops| && ops[j] == x;
    }
  }

  lemma ReadsOlder(c: Config, p: Pipe, v: View, op: Op, oooStores: bool)
    requires Inv(c, p) && MapInv(v, p.retired, p.seqOps) && op.unique == p.uniqueCount
    ensures GoodSources(op, RegSrcs(v, op)) && GoodSources(op, StoreSrc(v, op, oooStores))
  {
    var rs := RegSrcs(v, op);
    forall k | 0 <= k < |rs| && rs[k].Some? ensures rs[k].value.unique < op.unique {
      SourcesAreOlder(c, p, v, Reg(op.inst.srcs[k]));
    }
    if LookupIn(v, LastStore).Some? {
      SourcesAreOlder(c, p, v, LastStore);
    }
  }

  lemma GoodConcat(op: Op, a: seq<Option<Src>>, b: seq<Option<Src>>)
    requires GoodSources(op, a) && GoodSources(op, b)
    ensures GoodSources(op, a + b)
  {
  }

  /** What the maps and the pool hand out is older than the op being fetched. */
  lemma RecordedIsOlder(c: Config, p: Pipe, v: View, h: Hash, op: Op, oooStores: bool)
    requires Fetching(c, p, v, h) && op.unique == p.uniqueCount
    ensures GoodSources(op, Recorded(p.seqOps, v, h, op, oooStores))
  {
    WindowOlder(c, p);
    ReadsOlder(c, p, v, op, oooStores);
    SlotSrcsOlder(p.seqOps, LoadDeps(h, p.seqOps, op, oooStores), op);
    GoodConcat(op, RegSrcs(v, op), StoreSrc(v, op, oooStores));
    GoodConcat(op, RegSrcs(v, op) + StoreSrc(v, op, oooStores),
               SlotSrcs(p.seqOps, LoadDeps(h, p.seqOps, op, oooStores)));
  }

  /** So the step is one the wake-up runs allow. */
  lemma FlowIsWake(c: Config, s: FlowState, fe: FlowEvent, oooStores: bool)
    requires FlowInv(c, s, oooStores) && FlowEnabled(c, s, fe)
    ensures WakeEnabled(c, s.p, s.w, AsWake(s, fe, oooStores))
  {
    if fe.Flow? && TakesOp(fe.e) {
      RecordedIsOlder(c, s.p, s.v, fe.h, FetchedOp(s.p, fe.e.fetch.inst), oooStores);
    }
  }

  /** The recorded sources are right after the step as well. */
  ghost predicate DataAfter(c: Config, s: FlowState, we: WakeEvent, oooStores: bool)
    requires Inv(c, s.p) && (we.Core? ==> Enabled(c, s.p, we.e))
  {
    var q := PipeAfter(c, s.p, we);
    DataInv(q.retired, q.seqOps, WakeAfter(c, s.p, s.w, we), oooStores)
  }

  lemma FetchData(c: Config, s: FlowState, inst: Inst, h: Hash, oooStores: bool)
    requires FlowInv(c, s, oooStores) && s.p.ic.count < c.issueWidth && HashShows(h, s.v)
    ensures var op := FetchedOp(s.p, inst);
      DataInv(s.p.retired, s.p.seqOps + [op], NewOp(s.w, op, Recorded(s.p.seqOps, s.v, h, op, oooStores)), oooStores)
  {
    var op := FetchedOp(s.p, inst);
    var srcs := Recorded(s.p.seqOps, s.v, h, op, oooStores);
    FreshFetch(s.p, op);
    WindowOlder(c, s.p);
    RecordedIsOlder(c, s.p, s.v, h, op, oooStores);
    forall x, dep | x in s.p.seqOps
      ensures HasSrc(srcs, x, dep) <==> Producer(s.p.retired + s.p.seqOps, op, oooStores, x, dep) {
      RecordedIsProducer(c, s.p, s.v, h, op, oooStores, x, dep);
    }
    FetchKeepsData(s.p.retired, s.p.seqOps, s.w, oooStores, op, srcs);
  }

  /** A slot taken and put back belongs to no op in flight. */
  lemma AbortData(p: Pipe, w: Wake, oooStores: bool, op: Op)
    requires Pooling(p) && DataInv(p.retired, p.seqOps, w, oooStores) && op.slot == NextSlot(p.pool)
    ensures DataInv(p.retired, p.seqOps, FreeList(NewOp(w, op, []), op.slot), oooStores)
  {
    FreshFetch(p, op);
    var v := FreeList(NewOp(w, op, []), op.slot);
    forall i | 0 <= i < |p.seqOps|
      ensures SrcsRight(p.retired + p.seqOps[..i], p.seqOps[i], oooStores, Srcs(v, p.seqOps[i].slot), p.seqOps) {
      assert p.seqOps[i].slot != op.slot;
      assert SrcsRight(p.retired + p.seqOps[..i], p.seqOps[i], oooStores, Srcs(w, p.seqOps[i].slot), p.seqOps);
    }
  }

  lemma MapData(c: Config, s: FlowState, oooStores: bool)
    requires FlowInv(c, s, oooStores)
    ensures DataAfter(c, s, WakeEvent.Core(MapOps, []), oooStores)
  {
    LinkingKeepsSrcs(s.w, s.p.seqOps, NewlyLinked(c, s.p));
    SameSrcsKeep(s.p.retired, s.p.seqOps, s.w, LinkOps(s.w, LiveMap(s.p.seqOps), NewlyLinked(c, s.p)), oooStores);
  }

  lemma FlushData(retired: seq<Op>, ops: seq<Op>, w: Wake, oooStores: bool, k: nat, freed: seq<Op>)
    requires DataInv(retired, ops, w, oooStores) && k <= |ops|
    ensures DataInv(retired, ops[..k], FreeLists(w, freed), oooStores)
  {
    FreeListsSrcs(w, freed);
    SameSrcsKeep(retired, ops, w, FreeLists(w, freed), oooStores);
    CutKeepsData(retired, ops, FreeLists(w, freed), oooStores, k);
  }

  lemma RecoveryClips(c: Config, p: Pipe) returns (q: Pipe, k: nat)
    requires Inv(c, p) && p.pending.Some?
    ensures q == Step(c, p, Recovery) && k <= |p.seqOps| && q.seqOps == p.seqOps[..k] && q.retired == p.retired
  {
    k := RecoveryCutsWindow(c, p);
    q := Step(c, p, Recovery);
    SameWindow(c, p, p.seqOps[..k]);
  }

  lemma RecoveryData(c: Config, s: FlowState, oooStores: bool)
    requires FlowInv(c, s, oooStores) && s.p.pending.Some?
    ensures DataAfter(c, s, WakeEvent.Core(Recovery, []), oooStores)
  {
    var q, k := RecoveryClips(c, s.p);
    FlushData(s.p.retired, s.p.seqOps, s.w, oooStores, k, FlushOrder(s.p, s.p.pending.value.num));
    assert PipeAfter(c, s.p, WakeEvent.Core(Recovery, [])) == q;
  }

  lemma RetireData(c: Config, s: FlowState, oooStores: bool)
    requires FlowInv(c, s, oooStores) && Enabled(c, s.p, Retire)
    ensures DataAfter(c, s, WakeEvent.Core(Retire, []), oooStores)
  {
    RetireAssertionsHold(c, s.p);
    RetireKeepsData(s.p.retired, s.p.seqOps, s.w, oooStores);
    SameSrcsKeep(s.p.retired + [s.p.seqOps[0]], s.p.seqOps[1..], s.w, FreeList(s.w, s.p.node[0].slot), oooStores);
  }

  lemma ResultData(c: Config, s: FlowState, op: Op, t: DepType, oooStores: bool)
    requires FlowInv(c, s, oooStores)
    ensures DataAfter(c, s, Signals(op, t), oooStores)
  {
    WakeEachSrcs(s.w, LiveMap(s.p.seqOps), t, List(s.w, op.slot));
    SameSrcsKeep(s.p.retired, s.p.seqOps, s.w, Signal(s.w, LiveMap(s.p.seqOps), op.slot, t), oooStores);
  }

  lemma FetchStepData(c: Config, s: FlowState, f: Fetch, h: Hash, oooStores: bool)
    requires FlowInv(c, s, oooStores) && FlowEnabled(c, s, Flow(FetchOp(f), h))
    ensures DataAfter(c, s, AsWake(s, Flow(FetchOp(f), h), oooStores), oooStores)
  {
    match f
    case Take(inst) => FetchData(c, s, inst, h, oooStores);
    case _ => AbortData(s.p, s.w, oooStores, FetchedOp(s.p, AbortedInst(f)));
  }

  /** Decoding, issuing, executing and finishing leave the sequential list and the lists alone. */
  lemma OtherStepData(c: Config, s: FlowState, e: Event, oooStores: bool)
    requires FlowInv(c, s, oooStores) && Enabled(c, s.p, e)
    requires !e.FetchOp? && e != MapOps && e != Retire && e != Recovery
    ensures DataAfter(c, s, WakeEvent.Core(e, []), oooStores)
  {
  }

  lemma FlowKeepsData(c: Config, s: FlowState, fe: FlowEvent, oooStores: bool)
    requires FlowInv(c, s, oooStores) && FlowEnabled(c, s, fe)
    ensures DataAfter(c, s, AsWake(s, fe, oooStores), oooStores)
  {
    match fe
    case Result(op, dep) => ResultData(c, s, op, dep, oooStores);
    case Flow(e, h) =>
      if e.FetchOp? {
        FetchStepData(c, s, e.fetch, h, oooStores);
      } else if e == MapOps {
        MapData(c, s, oooStores);
      } else if e == Retire {
        RetireData(c, s, oooStores);
      } else if e == Recovery {
        RecoveryData(c, s, oooStores);
      } else {
        OtherStepData(c, s, e, oooStores);
      }
  }

  lemma FlowKeepsInv(c: Config, s: FlowState, fe: FlowEvent, oooStores: bool)
    requires FlowInv(c, s, oooStores) && FlowEnabled(c, s, fe)
    ensures FlowInv(c, FlowStep(c, s, fe, oooStores), oooStores)
  {
    var we := AsWake(s, fe, oooStores);
    FlowIsWake(c, s, fe, oooStores);
    PipeAfterKeepsInv(c, s.p, we);
    StepKeepsWoken(c, s.p, s.w, we);
    FlowKeepsData(c, s, fe, oooStores);
    if fe.Flow? {
      StepKeepsMaps(c, s.p, s.v, fe.e);
    }
  }

  ghost predicate FlowReaches(c: Config, s: FlowState, es: seq<FlowEvent>, end: FlowState, oooStores: bool)
    requires FlowInv(c, s, oooStores)
    decreases |es|
  {
    if es == [] then s == end
    else
      && FlowEnabled(c, s, es[0])
      && (FlowKeepsInv(c, s, es[0], oooStores);
          FlowReaches(c, FlowStep(c, s, es[0], oooStores), es[1..], end, oooStores))
  }

  lemma {:induction false} FlowRunKeepsInv(c: Config, s: FlowState, es: seq<FlowEvent>, end: FlowState, oooStores: bool)
    requires FlowInv(c, s, oooStores) && FlowReaches(c, s, es, end, oooStores)
    ensures FlowInv(c, end, oooStores)
    decreases |es|
  {
    if es != [] {
      FlowKeepsInv(c, s, es[0], oooStores);
      FlowRunKeepsInv(c, FlowStep(c, s, es[0], oooStores), es[1..], end, oooStores);
    }
  }

  ghost function InitFlow(c: Config, decodeDepth: nat, mapDepth: nat): FlowState
    requires decodeDepth > 0 && mapDepth > 0
  {
    FlowState(Init(c, decodeDepth, mapDepth), Blank(), InitWake())
  }

  lemma InitFlowInv(c: Config, decodeDepth: nat, mapDepth: nat, oooStores: bool)
    requires decodeDepth > 0 && mapDepth > 0
    ensures FlowInv(c, InitFlow(c, decodeDepth, mapDepth), oooStores)
  {
    InitInv(c, decodeDepth, mapDepth);
    BlankInv();
  }

  ghost predicate FlowReachable(c: Config, decodeDepth: nat, mapDepth: nat, es: seq<FlowEvent>, s: FlowState,
                                oooStores: bool)
    requires decodeDepth > 0 && mapDepth > 0
  {
    InitFlowInv(c, decodeDepth, mapDepth, oooStores);
    FlowReaches(c, InitFlow(c, decodeDepth, mapDepth), es, s, oooStores)
  }

  /** The producers of op in flight have all signalled what it waits for. */
  ghost predicate ProducersSignalled(s: FlowState, before: seq<Op>, op: Op, oooStores: bool) {
    forall x, dep :: x in s.p.seqOps && Producer(before, op, oooStores, x, dep) ==> dep in Signaled(s.w, x.slot)
  }

  /** Readiness is dataflow in program order: in every reachable state, an op that has passed the map stage has
      an empty not-ready vector if and only if every op in flight that produces something it has to wait for,
      by a scan of the older ops in program order, has signalled it. */
  lemma ReadyIffProducersSignalled(c: Config, decodeDepth: nat, mapDepth: nat, es: seq<FlowEvent>, s: FlowState,
                                   oooStores: bool, i: nat)
    requires decodeDepth > 0 && mapDepth > 0 && FlowReachable(c, decodeDepth, mapDepth, es, s, oooStores)
    requires i < |s.p.linked|
    ensures s.p.linked <= s.p.seqOps
    ensures NotReady(s.w, s.p.linked[i].slot) == {}
      <==> ProducersSignalled(s, s.p.retired + s.p.seqOps[..i], s.p.linked[i], oooStores)
  {
    InitFlowInv(c, decodeDepth, mapDepth, oooStores);
    FlowRunKeepsInv(c, InitFlow(c, decodeDepth, mapDepth), es, s, oooStores);
    PipeWindow(c, s.p);
    assert s.p.linked[i] == s.p.seqOps[i];
    ReadyIff(s.p.retired, s.p.seqOps, s.w, oooStores, |s.p.linked|, i);
  }

  lemma ReadyIff(retired: seq<Op>, ops: seq<Op>, w: Wake, oooStores: bool, n: nat, i: nat)
    requires DataInv(retired, ops, w, oooStores) && Bits(w, ops, n, 0) && i < n <= |ops|
    ensures NotReady(w, ops[i].slot) == {}
      <==> forall x, dep :: x in ops && Producer(retired + ops[..i], ops[i], oooStores, x, dep) ==>
        dep in Signaled(w, x.slot)
  {
    var s := ops[i].slot;
    assert SrcsRight(retired + ops[..i], ops[i], oooStores, Srcs(w, s), ops);
    if k :| k in NotReady(w, s) {
      SetBitHasProducer(retired, ops, w, oooStores, n, i, k);
    }
    if x, dep :| x in ops && Producer(retired + ops[..i], ops[i], oooStores, x, dep) && dep !in Signaled(w, x.slot) {
      assert HasSrc(Srcs(w, s), x, dep);
      var k :| 0 <= k < |Srcs(w, s)| && Srcs(w, s)[k] == Some(Src(x.slot, x.unique, dep));
      var j :| 0 <= j < |ops| && ops[j] == x;
      assert Linked(i, k, n, 0) && InFlight(ops, x.slot, x.unique) && Waiting(w, ops, SrcOf(w, ops, i, k));
      assert k in NotReady(w, s);
    }
  }

  lemma SetBitHasProducer(retired: seq<Op>, ops: seq<Op>, w: Wake, oooStores: bool, n: nat, i: nat, k: nat)
    requires DataInv(retired, ops, w, oooStores) && Bits(w, ops, n, 0) && i < n <= |ops|
      && k in NotReady(w, ops[i].slot)
    ensures exists x, dep ::
      x in ops && Producer(retired + ops[..i], ops[i], oooStores, x, dep) && dep !in Signaled(w, x.slot)
  {
    var srcs := Srcs(w, ops[i].slot);
    assert SrcsRight(retired + ops[..i], ops[i], oooStores, srcs, ops);
    assert Linked(i, k, n, 0) && k < |srcs| && Waiting(w, ops, SrcOf(w, ops, i, k));
    var src := srcs[k].value;
    var j :| 0 <= j < |ops| && ops[j].slot == src.op && ops[j].unique == src.unique;
    assert srcs[k] == Some(Src(ops[j].slot, ops[j].unique, src.dep));
    assert HasSrc(srcs, ops[j], src.dep);
  }
}
