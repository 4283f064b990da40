/** Pipeline, dependence maps and wake-up lists together: the sources recorded at fetch are what the maps say,
    and an op becomes ready when its producers in program order have signalled. */
module Dataflow {
  import opened Ops
  import opened OpPool
  import opened Stages
  import opened Pipeline
  import opened PipelineSteps
  import opened PipelineRuns
  import opened ByteTraversal
  import opened StoreMap
  import opened DependenceMaps
  import opened RegisterMap
  import opened MapRuns
  import opened WakeUp
  import opened WakeUpSteps
  import opened WakeUpRuns

  // ----- the reference: whom an op depends on in program order

  /** Store w supplies a byte of the load, seen from the ops before it. */
  ghost predicate SuppliesLoad(before: seq<Op>, load: Op, w: Op) {
    exists k: nat :: k < load.inst.size && Supplies(before, load.inst.va, k, w)
  }

  /** Op w, one of those before op in program order, produces something op has to wait for: a register value,
      the address of the last store, or the data of a store a load reads from. With in-order stores only the
      youngest store counts. */
  ghost predicate Producer(before: seq<Op>, op: Op, oooStores: bool, w: Op, dep: DepType) {
    match dep
    case RegData => exists j :: 0 <= j < |op.inst.srcs| && Youngest(before, Reg(op.inst.srcs[j])) == Some(w)
    case MemAddr => !oooStores && !op.inst.mem.NotMem? && Youngest(before, LastStore) == Some(w)
    case MemData =>
      && op.inst.mem.Load? && SuppliesLoad(before, op, w)
      && (!oooStores ==> forall x :: SuppliesLoad(before, op, x) ==> x.num <= w.num)
  }

  // ----- what is recorded at fetch

  function SrcFrom(e: Option<MapEntry>, dep: DepType): Option<Src> {
    if e.None? then None else Some(Src(e.value.op, e.value.unique, dep))
  }

  ghost function RegSrcs(v: View, op: Op): (srcs: seq<Option<Src>>)
    ensures |srcs| == |op.inst.srcs|
    ensures forall i :: 0 <= i < |srcs| ==> srcs[i] == SrcFrom(EntryOf(LookupIn(v, Reg(op.inst.srcs[i]))), RegData)
  {
    seq(|op.inst.srcs|, i requires 0 <= i < |op.inst.srcs| =>
      SrcFrom(EntryOf(LookupIn(v, Reg(op.inst.srcs[i]))), RegData))
  }

  ghost function StoreSrc(v: View, op: Op, oooStores: bool): seq<Option<Src>> {
    if !oooStores && !op.inst.mem.NotMem? then [SrcFrom(EntryOf(LookupIn(v, LastStore)), MemAddr)] else []
  }

  /** The op in a slot. */
  function OpAt(ops: seq<Op>, s: Slot): (op: Option<Op>)
    ensures op.Some? ==> op.value in ops && op.value.slot == s
  {
    if ops == [] then None
    else if ops[|ops| - 1].slot == s then Some(ops[|ops| - 1])
    else OpAt(ops[..|ops| - 1], s)
  }

  lemma {:induction false} OpAtIs(ops: seq<Op>, j: nat)
    requires j < |ops| && DistinctSlots(ops)
    ensures OpAt(ops, ops[j].slot) == Some(ops[j])
  {
    if j < |ops| - 1 {
      OpAtIs(ops[..|ops| - 1], j);
    }
  }

  ghost function NumAt(ops: seq<Op>): (f: Slot -> nat)
    ensures forall s :: f(s) == if OpAt(ops, s).Some? then OpAt(ops, s).value.num else 0
  {
    s => if OpAt(ops, s).Some? then OpAt(ops, s).value.num else 0
  }

  /** The stores add_store_deps picks. */
  ghost function LoadDeps(h: Hash, ops: seq<Op>, op: Op, oooStores: bool): seq<Slot> {
    if !op.inst.mem.Load? then []
    else
      var g := Gather(h, op.inst.va, op.inst.size, oooStores, NumAt(ops));
      if oooStores then g.deps else if g.last.Some? then [g.last.value] else []
  }

  ghost function SlotSrcs(ops: seq<Op>, slots: seq<Slot>): (srcs: seq<Option<Src>>)
    ensures |srcs| == |slots|
    ensures forall i :: 0 <= i < |srcs| ==>
      srcs[i] ==
        if OpAt(ops, slots[i]).Some? then Some(Src(slots[i], OpAt(ops, slots[i]).value.unique, MemData)) else None
  {
    seq(|slots|, i requires 0 <= i < |slots| =>
      if OpAt(ops, slots[i]).Some? then Some(Src(slots[i], OpAt(ops, slots[i]).value.unique, MemData)) else None)
  }

  /** map_op and map_mem_dep: register sources, then the last store, then the stores of a load. */
  ghost function Recorded(ops: seq<Op>, v: View, h: Hash, op: Op, oooStores: bool): seq<Option<Src>> {
    RegSrcs(v, op) + StoreSrc(v, op, oooStores) + SlotSrcs(ops, LoadDeps(h, ops, op, oooStores))
  }

  /** The first two parts are the sources of map_op. */
  lemma RecordedFromMapOp(v: View, op: Op, oooStores: bool)
    ensures var rs, ms := RegSrcs(v, op) + StoreSrc(v, op, oooStores), SourcesOf(v, op, oooStores);
      && |rs| == |ms|
      && forall i :: 0 <= i < |rs| ==> rs[i] == SrcFrom(ms[i], if i < |op.inst.srcs| then RegData else MemAddr)
  {
  }

  // ----- an entry names one op

  ghost predicate Names(src: Option<Src>, w: Op, dep: DepType) { src == Some(Src(w.slot, w.unique, dep)) }

  ghost predicate HasSrc(srcs: seq<Option<Src>>, w: Op, dep: DepType) { Some(Src(w.slot, w.unique, dep)) in srcs }

  lemma SameUniqueSameOp(all: seq<Op>, a: Op, b: Op)
    requires IncreasingUniques(all) && a in all && b in all && a.unique == b.unique
    ensures a == b
  {
    var i :| 0 <= i < |all| && all[i] == a;
    var j :| 0 <= j < |all| && all[j] == b;
  }

  lemma WriterNamed(all: seq<Op>, c: Cell, w: Op, dep: DepType, found: Option<Op>)
    requires IncreasingUniques(all) && w in all && found == Youngest(all, c)
    ensures SrcFrom(EntryOf(found), dep) == Some(Src(w.slot, w.unique, dep)) <==> found == Some(w)
  {
    if found.Some? && found.value.unique == w.unique {
      SameUniqueSameOp(all, found.value, w);
    }
  }

  /** The op being fetched, its window, and the maps it reads. */
  ghost predicate Fetching(c: Config, p: Pipe, v: View, h: Hash) {
    Inv(c, p) && MapInv(v, p.retired, p.seqOps) && HashShows(h, v)
  }

  lemma AllOps(c: Config, p: Pipe, w: Op)
    requires Inv(c, p) && w in p.seqOps
    ensures IncreasingUniques(p.retired + p.seqOps) && w in p.retired + p.seqOps
  {
    var j :| 0 <= j < |p.seqOps| && p.seqOps[j] == w;
    assert (p.retired + p.seqOps)[|p.retired| + j] == w;
  }

  /** What a register or the last store is read as names its writer in flight. */
  lemma ReadNames(c: Config, p: Pipe, v: View, cell: Cell, w: Op, dep: DepType)
    requires Inv(c, p) && MapInv(v, p.retired, p.seqOps) && w in p.seqOps && !cell.MemByte?
    ensures Names(SrcFrom(EntryOf(LookupIn(v, cell)), dep), w, dep) <==> Youngest(p.retired + p.seqOps, cell) == Some(w)
  {
    AllOps(c, p, w);
    LookupIsYoungest(v, p.retired, p.seqOps, cell);
    WriterNamed(p.retired + p.seqOps, cell, w, dep, LookupIn(v, cell));
  }

  lemma RegSrcsRight(c: Config, p: Pipe, v: View, op: Op, oooStores: bool, w: Op)
    requires Inv(c, p) && MapInv(v, p.retired, p.seqOps) && w in p.seqOps
    ensures HasSrc(RegSrcs(v, op), w, RegData) <==> Producer(p.retired + p.seqOps, op, oooStores, w, RegData)
  {
    var all, srcs := p.retired + p.seqOps, RegSrcs(v, op);
    forall i | 0 <= i < |srcs| ensures Names(srcs[i], w, RegData) <==> Youngest(all, Reg(op.inst.srcs[i])) == Some(w) {
      ReadNames(c, p, v, Reg(op.inst.srcs[i]), w, RegData);
    }
    RegSrcsAmong(all, srcs, op, oooStores, w);
  }

  lemma RegSrcsAmong(all: seq<Op>, srcs: seq<Option<Src>>, op: Op, oooStores: bool, w: Op)
    requires |srcs| == |op.inst.srcs|
    requires forall i :: 0 <= i < |srcs| ==>
      (Names(srcs[i], w, RegData) <==> Youngest(all, Reg(op.inst.srcs[i])) == Some(w))
    ensures HasSrc(srcs, w, RegData) <==> Producer(all, op, oooStores, w, RegData)
  {
    if HasSrc(srcs, w, RegData) {
      var i :| 0 <= i < |srcs| && srcs[i] == Some(Src(w.slot, w.unique, RegData));
      assert Names(srcs[i], w, RegData);
    }
    if Producer(all, op, oooStores, w, RegData) {
      var j :| 0 <= j < |op.inst.srcs| && Youngest(all, Reg(op.inst.srcs[j])) == Some(w);
      assert Names(srcs[j], w, RegData);
    }
  }

  lemma StoreSrcRight(c: Config, p: Pipe, v: View, op: Op, oooStores: bool, w: Op)
    requires Inv(c, p) && MapInv(v, p.retired, p.seqOps) && w in p.seqOps
    ensures HasSrc(StoreSrc(v, op, oooStores), w, MemAddr)
      <==> Producer(p.retired + p.seqOps, op, oooStores, w, MemAddr)
  {
    ReadNames(c, p, v, LastStore, w, MemAddr);
    var src := SrcFrom(EntryOf(LookupIn(v, LastStore)), MemAddr);
    assert HasSrc([src], w, MemAddr) <==> Names(src, w, MemAddr);
  }

  // ----- the stores of a load

  /** Among the ops in flight it makes no difference whether the retired ones are scanned too. */
  lemma SuppliesInFlight(c: Config, p: Pipe, load: Op, w: Op)
    requires Inv(c, p) && w in p.seqOps
    ensures SuppliesLoad(p.retired + p.seqOps, load, w) <==> SuppliesLoad(p.seqOps, load, w)
  {
    var all := p.retired + p.seqOps;
    forall k: nat | k < load.inst.size
      ensures Supplies(all, load.inst.va, k, w) <==> Supplies(p.seqOps, load.inst.va, k, w) {
      var cell := MemByte(AddrPlus(load.inst.va, k));
      YoungestConcat(p.retired, p.seqOps, cell);
      if Youngest(p.retired, cell) == Some(w) {
        RetiredNotInFlight(c, p, w);
      }
    }
  }

  lemma RetiredNotInFlight(c: Config, p: Pipe, w: Op)
    requires Inv(c, p) && w in p.seqOps
    ensures w !in p.retired
  {
    var all := p.retired + p.seqOps;
    var j :| 0 <= j < |p.seqOps| && p.seqOps[j] == w;
    forall i | 0 <= i < |p.retired| ensures p.retired[i] != w {
      assert all[i] == p.retired[i] && all[|p.retired| + j] == w;
    }
  }

  /** A supplier in flight that is the youngest of those in flight is the youngest of all. */
  lemma YoungestSupplier(c: Config, p: Pipe, load: Op, w: Op)
    requires Inv(c, p) && w in p.seqOps
    ensures (forall x :: SuppliesLoad(p.retired + p.seqOps, load, x) ==> x.num <= w.num)
      <==> forall x :: x in p.seqOps && SuppliesLoad(p.seqOps, load, x) ==> x.num <= w.num
  {
    var all := p.retired + p.seqOps;
    var j :| 0 <= j < |p.seqOps| && p.seqOps[j] == w;
    forall x | SuppliesLoad(all, load, x) && x !in p.seqOps ensures x.num <= w.num {
      assert x in all;
      var i :| 0 <= i < |p.retired| && p.retired[i] == x;
      assert x.num == 1 + i;
    }
    forall x | x in p.seqOps ensures SuppliesLoad(all, load, x) <==> SuppliesLoad(p.seqOps, load, x) {
      SuppliesInFlight(c, p, load, x);
    }
  }

  /** The slot of an op in flight among the picked stores. */
  lemma SlotSrcsRight(c: Config, p: Pipe, slots: seq<Slot>, w: Op)
    requires Inv(c, p) && w in p.seqOps
    ensures HasSrc(SlotSrcs(p.seqOps, slots), w, MemData) <==> w.slot in slots
  {
    var j :| 0 <= j < |p.seqOps| && p.seqOps[j] == w;
    OpAtIs(p.seqOps, j);
    var srcs := SlotSrcs(p.seqOps, slots);
    if w.slot in slots {
      var i :| 0 <= i < |slots| && slots[i] == w.slot;
      assert srcs[i] == Some(Src(w.slot, w.unique, MemData));
    }
  }

  lemma NumsKnown(c: Config, p: Pipe)
    requires Inv(c, p)
    ensures forall i :: 0 <= i < |p.seqOps| ==> NumAt(p.seqOps)(p.seqOps[i].slot) == p.seqOps[i].num
  {
    forall i | 0 <= i < |p.seqOps| ensures NumAt(p.seqOps)(p.seqOps[i].slot) == p.seqOps[i].num {
      OpAtIs(p.seqOps, i);
    }
  }

  lemma SuppliersInFlight(p: Pipe, v: View, h: Hash, load: Op, w: Op, oooStores: bool, c: Config)
    requires Fetching(c, p, v, h) && w in p.seqOps && load.inst.mem.Load?
    ensures oooStores ==> (w.slot in LoadDeps(h, p.seqOps, load, oooStores) <==> SuppliesLoad(p.seqOps, load, w))
  {
    if oooStores {
      NumsKnown(c, p);
      LoadSources(c, p, v, h, load.inst.va, load.inst.size, true, NumAt(p.seqOps), w);
    }
  }

  ghost predicate YoungestOf(ops: seq<Op>, load: Op, w: Op) {
    w in ops && SuppliesLoad(ops, load, w) && forall x :: x in ops && SuppliesLoad(ops, load, x) ==> x.num <= w.num
  }

  lemma LastFound(c: Config, p: Pipe, v: View, h: Hash, load: Op) returns (last: Option<Op>)
    requires Fetching(c, p, v, h) && load.inst.mem.Load?
    ensures last.None? ==>
      LoadDeps(h, p.seqOps, load, false) == [] && forall x :: x in p.seqOps ==> !SuppliesLoad(p.seqOps, load, x)
    ensures last.Some? ==>
      LoadDeps(h, p.seqOps, load, false) == [last.value.slot] && YoungestOf(p.seqOps, load, last.value)
  {
    var va, size, opNum := load.inst.va, load.inst.size, NumAt(p.seqOps);
    var g := Gather(h, va, size, false, opNum);
    NumsKnown(c, p);
    forall x | x in p.seqOps ensures
      && (g.last.None? ==> !SuppliesLoad(p.seqOps, load, x))
      && (SuppliesLoad(p.seqOps, load, x) ==> x.num <= opNum(g.last.value)) {
      LoadSources(c, p, v, h, va, size, false, opNum, x);
    }
    last := None;
    if g.last.Some? {
      var op := LastIsSupplier(c, p, v, h, va, size, false, opNum);
      last := Some(op);
      var i :| 0 <= i < |p.seqOps| && p.seqOps[i] == op;
    }
  }

  /** With in-order stores the picked store is the youngest supplier. */
  lemma LastInFlight(c: Config, p: Pipe, v: View, h: Hash, load: Op, w: Op)
    requires Fetching(c, p, v, h) && w in p.seqOps && load.inst.mem.Load?
    ensures w.slot in LoadDeps(h, p.seqOps, load, false) <==> YoungestOf(p.seqOps, load, w)
  {
    var last := LastFound(c, p, v, h, load);
    if last.Some? {
      if YoungestOf(p.seqOps, load, w) {
        SameNumSameOp(c, p, last.value, w);
      }
      if w.slot == last.value.slot {
        SameSlotSameOp(p.seqOps, w, last.value);
      }
    }
  }

  lemma SameNumSameOp(c: Config, p: Pipe, a: Op, b: Op)
    requires Inv(c, p) && a in p.seqOps && b in p.seqOps && a.num == b.num
    ensures a == b
  {
  }

  lemma SameSlotSameOp(ops: seq<Op>, a: Op, b: Op)
    requires DistinctSlots(ops) && a in ops && b in ops && a.slot == b.slot
    ensures a == b
  {
  }

  /** With either kind of stores the sources of a load are the stores in flight it depends on. */
  lemma LoadSrcsRight(c: Config, p: Pipe, v: View, h: Hash, op: Op, oooStores: bool, w: Op)
    requires Fetching(c, p, v, h) && w in p.seqOps
    ensures HasSrc(SlotSrcs(p.seqOps, LoadDeps(h, p.seqOps, op, oooStores)), w, MemData)
      <==> Producer(p.retired + p.seqOps, op, oooStores, w, MemData)
  {
    SlotSrcsRight(c, p, LoadDeps(h, p.seqOps, op, oooStores), w);
    if op.inst.mem.Load? {
      SuppliesInFlight(c, p, op, w);
      if oooStores {
        SuppliersInFlight(p, v, h, op, w, true, c);
      } else {
        YoungestSupplier(c, p, op, w);
        LastInFlight(c, p, v, h, op, w);
      }
    }
  }

  /** The three parts do not mix: each has its own kind of dependence. */
  lemma RecordedParts(ops: seq<Op>, v: View, h: Hash, op: Op, oooStores: bool, w: Op, dep: DepType)
    ensures HasSrc(Recorded(ops, v, h, op, oooStores), w, dep) <==>
      match dep
      case RegData => HasSrc(RegSrcs(v, op), w, dep)
      case MemAddr => HasSrc(StoreSrc(v, op, oooStores), w, dep)
      case MemData => HasSrc(SlotSrcs(ops, LoadDeps(h, ops, op, oooStores)), w, dep)
  {
    var a, b, d := RegSrcs(v, op), StoreSrc(v, op, oooStores), SlotSrcs(ops, LoadDeps(h, ops, op, oooStores));
    var src := Some(Src(w.slot, w.unique, dep));
    assert src in a + b + d <==> src in a || src in b || src in d;
  }

  /** What is recorded at fetch is right: an op in flight is recorded as a source if and only if it produces
      something the fetched op has to wait for. */
  lemma RecordedIsProducer(c: Config, p: Pipe, v: View, h: Hash, op: Op, oooStores: bool, w: Op, dep: DepType)
    requires Fetching(c, p, v, h) && w in p.seqOps
    ensures HasSrc(Recorded(p.seqOps, v, h, op, oooStores), w, dep)
      <==> Producer(p.retired + p.seqOps, op, oooStores, w, dep)
  {
    RecordedParts(p.seqOps, v, h, op, oooStores, w, dep);
    match dep
    case RegData => RegSrcsRight(c, p, v, op, oooStores, w);
    case MemAddr => StoreSrcRight(c, p, v, op, oooStores, w);
    case MemData => LoadSrcsRight(c, p, v, h, op, oooStores, w);
  }
}
