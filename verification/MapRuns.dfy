/** The dependence maps beside the pipeline: over every run a lookup is a scan of the ops in flight. */
module MapRuns {
  import opened Ops
  import opened OpPool
  import opened Stages
  import opened Pipeline
  import opened PipelineSteps
  import opened PipelineRuns
  import opened ByteTraversal
  import opened StoreMap
  import opened DependenceMaps
  import opened RegisterMap

  /** What a pipeline step does to the maps: fetch writes them, free_op deletes stores, recovery replays
      the clipped list and then frees the flushed ops in the order of cmp_recover. */
  ghost function MapStep(c: Config, p: Pipe, v: View, e: Event): View
    requires Inv(c, p) && Enabled(c, p, e)
  {
    match e
    case FetchOp(Take(inst)) => Put(v, FetchedOp(p, inst))
    case FetchOp(BreakBefore(inst)) => Del(v, FetchedOp(p, inst))
    case FetchOp(Stop(stale)) => Del(v, FetchedOp(p, stale).(offPath := false))
    case Retire => Del(v, p.node[0])
    case Recovery => RecoverView(v, RecoverSeqOpList(p.seqOps, p.pending.value.num), FlushOrder(p, p.pending.value.num))
    case _ => v
  }

  lemma FreshFetch(p: Pipe, op: Op)
    requires Pooling(p) && op.slot == NextSlot(p.pool)
    ensures FreshSlot(op, p.seqOps)
  {
    AllocTakesFreshSlot(p.pool);
    forall i | 0 <= i < |p.seqOps| ensures p.seqOps[i].slot != op.slot {
      assert Slots(p.seqOps)[i] == p.seqOps[i].slot;
    }
  }

  lemma FetchKeepsMaps(c: Config, p: Pipe, v: View, f: Fetch)
    requires Inv(c, p) && Enabled(c, p, FetchOp(f)) && MapInv(v, p.retired, p.seqOps)
    ensures var q := Step(c, p, FetchOp(f)); MapInv(MapStep(c, p, v, FetchOp(f)), q.retired, q.seqOps)
  {
    StepKeepsInv(c, p, FetchOp(f));
    match f
    case Take(inst) =>
      PutOnHalf(v, p.retired, p.seqOps, FetchedOp(p, inst));
      PutOffHalf(v, p.seqOps, FetchedOp(p, inst));
    case BreakBefore(inst) =>
      FreshFetch(p, FetchedOp(p, inst));
      AbortKeepsMaps(v, p.retired, p.seqOps, FetchedOp(p, inst));
    case Stop(stale) =>
      var op := FetchedOp(p, stale).(offPath := false);
      FreshFetch(p, op);
      AbortKeepsMaps(v, p.retired, p.seqOps, op);
  }

  lemma RetireKeepsMaps(c: Config, p: Pipe, v: View)
    requires Inv(c, p) && Enabled(c, p, Retire) && MapInv(v, p.retired, p.seqOps)
    ensures var q := Step(c, p, Retire); MapInv(MapStep(c, p, v, Retire), q.retired, q.seqOps)
  {
    RetireAssertionsHold(c, p);
    RetireOnHalf(v, p.retired, p.seqOps);
    RetireOffHalf(v, p.seqOps);
  }

  lemma RecoveryCutsWindow(c: Config, p: Pipe) returns (k: nat)
    requires Inv(c, p) && p.pending.Some?
    ensures var r := p.pending.value.num;
      WrongPathCut(p.seqOps, k, FlushOrder(p, r)) && RecoverSeqOpList(p.seqOps, r) == p.seqOps[..k]
  {
    var r := p.pending.value.num;
    k := RecoveryCut(c, p);
    KeptIsPrefix(p.seqOps, p.retOp, r);
    ClipIsKept(p.seqOps, p.retOp, r);
    FlushOrderPermutes(p, r);
    forall op ensures op in FlushOrder(p, r) <==> op in p.seqOps[k..] {
      assert op in FlushOrder(p, r) <==> op in multiset(FlushOrder(p, r));
      assert op in p.seqOps[k..] <==> op in multiset(p.seqOps[k..]);
    }
  }

  lemma RecoveryKeepsMaps(c: Config, p: Pipe, v: View)
    requires Inv(c, p) && Enabled(c, p, Recovery) && MapInv(v, p.retired, p.seqOps)
    ensures var q := Step(c, p, Recovery); MapInv(MapStep(c, p, v, Recovery), q.retired, q.seqOps)
  {
    var k := RecoveryCutsWindow(c, p);
    RecoverKeepsMaps(v, p.retired, p.seqOps, k, FlushOrder(p, p.pending.value.num));
    SameWindow(c, p, p.seqOps[..k]);
  }

  lemma SameWindow(c: Config, p: Pipe, ops: seq<Op>)
    requires Inv(c, p) && p.pending.Some? && RecoverSeqOpList(p.seqOps, p.pending.value.num) == ops
    ensures var q := Step(c, p, Recovery); q.seqOps == ops && q.retired == p.retired
  {
  }

  /** Whatever the pipeline does, the maps keep up with it. */
  lemma StepKeepsMaps(c: Config, p: Pipe, v: View, e: Event)
    requires Inv(c, p) && Enabled(c, p, e) && MapInv(v, p.retired, p.seqOps)
    ensures var q := Step(c, p, e); MapInv(MapStep(c, p, v, e), q.retired, q.seqOps)
  {
    match e
    case FetchOp(f) => FetchKeepsMaps(c, p, v, f);
    case Retire => RetireKeepsMaps(c, p, v);
    case Recovery => RecoveryKeepsMaps(c, p, v);
    case _ =>
  }

  /** The maps at the end of a run. */
  ghost function MapsAfter(c: Config, p: Pipe, v: View, es: seq<Event>, end: Pipe): View
    requires Inv(c, p) && Reaches(c, p, es, end)
    decreases |es|
  {
    if es == [] then v
    else
      StepKeepsInv(c, p, es[0]);
      MapsAfter(c, Step(c, p, es[0]), MapStep(c, p, v, es[0]), es[1..], end)
  }

  lemma {:induction false} RunKeepsMaps(c: Config, p: Pipe, v: View, es: seq<Event>, end: Pipe)
    requires Inv(c, p) && Reaches(c, p, es, end) && MapInv(v, p.retired, p.seqOps)
    ensures MapInv(MapsAfter(c, p, v, es, end), end.retired, end.seqOps)
    decreases |es|
  {
    if es != [] {
      StepKeepsInv(c, p, es[0]);
      StepKeepsMaps(c, p, v, es[0]);
      RunKeepsMaps(c, Step(c, p, es[0]), MapStep(c, p, v, es[0]), es[1..], end);
    }
  }

  ghost function MapsReached(c: Config, decodeDepth: nat, mapDepth: nat, es: seq<Event>, p: Pipe): View
    requires decodeDepth > 0 && mapDepth > 0 && Reachable(c, decodeDepth, mapDepth, es, p)
  {
    InitInv(c, decodeDepth, mapDepth);
    MapsAfter(c, Init(c, decodeDepth, mapDepth), Blank(), es, p)
  }

  lemma ReachedMaps(c: Config, decodeDepth: nat, mapDepth: nat, es: seq<Event>, p: Pipe)
    requires decodeDepth > 0 && mapDepth > 0 && Reachable(c, decodeDepth, mapDepth, es, p)
    ensures MapInv(MapsReached(c, decodeDepth, mapDepth, es, p), p.retired, p.seqOps)
  {
    InitInv(c, decodeDepth, mapDepth);
    BlankInv();
    RunKeepsMaps(c, Init(c, decodeDepth, mapDepth), Blank(), es, p);
  }

  /** After any run the hash lookup of a byte is the youngest store in flight that covers it, and finds
      nothing when there is none. */
  lemma StoreLookupIsYoungest(c: Config, decodeDepth: nat, mapDepth: nat, es: seq<Event>, p: Pipe, h: Hash, a: nat)
    requires decodeDepth > 0 && mapDepth > 0 && Reachable(c, decodeDepth, mapDepth, es, p)
    requires HashShows(h, MapsReached(c, decodeDepth, mapDepth, es, p))
    ensures Lookup(h, a) == SlotOf(Youngest(p.seqOps, MemByte(a)))
  {
    ReachedMaps(c, decodeDepth, mapDepth, es, p);
    LookupIsYoungest(MapsReached(c, decodeDepth, mapDepth, es, p), p.retired, p.seqOps, MemByte(a));
  }

  /** After any run a register reads as its last writer in program order, with that op's number and
      unique number; flushed writers are forgotten, retired ones are not. */
  lemma RegisterReadIsLastWriter(c: Config, decodeDepth: nat, mapDepth: nat, es: seq<Event>, p: Pipe, cell: Cell)
    requires decodeDepth > 0 && mapDepth > 0 && Reachable(c, decodeDepth, mapDepth, es, p) && !cell.MemByte?
    ensures LookupIn(MapsReached(c, decodeDepth, mapDepth, es, p), cell) == Youngest(p.retired + p.seqOps, cell)
  {
    ReachedMaps(c, decodeDepth, mapDepth, es, p);
    LookupIsYoungest(MapsReached(c, decodeDepth, mapDepth, es, p), p.retired, p.seqOps, cell);
  }

  /** A recovery leaves no trace of what it flushed: every lookup is as if the flushed ops had never been
      fetched. */
  lemma RecoveryForgetsFlushed(c: Config, p: Pipe, v: View, cell: Cell)
    requires Inv(c, p) && p.pending.Some? && MapInv(v, p.retired, p.seqOps)
    ensures var kept := Kept(p.seqOps, p.pending.value.num);
      LookupIn(MapStep(c, p, v, Recovery), cell) == Youngest(if cell.MemByte? then kept else p.retired + kept, cell)
  {
    RecoveryKeepsMaps(c, p, v);
    ClipIsKept(p.seqOps, p.retOp, p.pending.value.num);
    var q := Step(c, p, Recovery);
    LookupIsYoungest(MapStep(c, p, v, Recovery), q.retired, q.seqOps, cell);
    SameWindow(c, p, Kept(p.seqOps, p.pending.value.num));
  }

  /** The assertions of add_src_from_map_entry and add_src_from_op: a source is older than its reader. */
  lemma SourcesAreOlder(c: Config, p: Pipe, v: View, cell: Cell)
    requires Inv(c, p) && MapInv(v, p.retired, p.seqOps) && LookupIn(v, cell).Some?
    ensures LookupIn(v, cell).value.num < p.opCount && LookupIn(v, cell).value.unique < p.uniqueCount
  {
    LookupIsYoungest(v, p.retired, p.seqOps, cell);
    var w, all := LookupIn(v, cell).value, p.retired + p.seqOps;
    assert w in all;
    var i :| 0 <= i < |all| && all[i] == w;
    assert all[i].num == 1 + i;
  }

  // ----- the sources of a load

  /** op supplies byte number k of the access. */
  ghost predicate Supplies(window: seq<Op>, va: nat, k: nat, op: Op) {
    Youngest(window, MemByte(AddrPlus(va, k))) == Some(op)
  }

  lemma FoundAreSuppliers(h: Hash, v: View, retired: seq<Op>, window: seq<Op>, va: nat, size: nat, op: Op)
    requires HashShows(h, v) && MapInv(v, retired, window) && DistinctSlots(window) && op in window
    ensures op.slot in Found(h, va, size) <==> exists k: nat :: k < size && Supplies(window, va, k, op)
  {
    forall k: nat | k < size ensures
      Lookup(h, AddrPlus(va, k)) == SlotOf(Youngest(window, MemByte(AddrPlus(va, k)))) {
      LookupIsYoungest(v, retired, window, MemByte(AddrPlus(va, k)));
    }
    if op.slot in Found(h, va, size) {
      var k: nat :| k < size && Lookup(h, AddrPlus(va, k)) == Some(op.slot);
      assert Supplies(window, va, k, op);
    }
    if k: nat :| k < size && Supplies(window, va, k, op) {
      assert Lookup(h, AddrPlus(va, k)) == Some(op.slot);
    }
  }

  /** With out-of-order stores a load depends on exactly the youngest stores in flight of its bytes, each
      once; otherwise on exactly the youngest of those. */
  lemma LoadSources(c: Config, p: Pipe, v: View, h: Hash, va: nat, size: nat, oooStores: bool, opNum: Slot -> nat,
                    op: Op)
    requires Inv(c, p) && HashShows(h, v) && MapInv(v, p.retired, p.seqOps) && op in p.seqOps
    requires forall i :: 0 <= i < |p.seqOps| ==> opNum(p.seqOps[i].slot) == p.seqOps[i].num
    ensures var g := Gather(h, va, size, oooStores, opNum);
      var supplies := exists k: nat :: k < size && Supplies(p.seqOps, va, k, op);
      && (oooStores ==> NoDuplicates(g.deps) && (op.slot in g.deps <==> supplies))
      && (g.last.None? ==> !supplies)
      && (supplies ==> op.num <= opNum(g.last.value))
  {
    GatherFinds(h, va, size, oooStores, opNum);
    FoundAreSuppliers(h, v, p.retired, p.seqOps, va, size, op);
  }

  /** The one source of the in-order case is itself a supplier, so it is the youngest of them. */
  lemma LastIsSupplier(c: Config, p: Pipe, v: View, h: Hash, va: nat, size: nat, oooStores: bool, opNum: Slot -> nat)
    returns (op: Op)
    requires Inv(c, p) && HashShows(h, v) && MapInv(v, p.retired, p.seqOps)
    requires Gather(h, va, size, oooStores, opNum).last.Some?
    ensures op in p.seqOps && op.slot == Gather(h, va, size, oooStores, opNum).last.value
    ensures exists k: nat :: k < size && Supplies(p.seqOps, va, k, op)
  {
    GatherFinds(h, va, size, oooStores, opNum);
    var s := Gather(h, va, size, oooStores, opNum).last.value;
    var k: nat :| k < size && Lookup(h, AddrPlus(va, k)) == Some(s);
    LookupIsYoungest(v, p.retired, p.seqOps, MemByte(AddrPlus(va, k)));
    op := Youngest(p.seqOps, MemByte(AddrPlus(va, k))).value;
    assert Supplies(p.seqOps, va, k, op);
  }
}
