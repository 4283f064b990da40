/** map.c: the register map, the last-store register, and the recovery of all dependence maps. */
module RegisterMap {
  import opened Ops
  import opened ByteTraversal
  import opened StoreMap
  import opened DependenceMaps

  /** Map_Entry; None stands for &invalid_op. */
  datatype MapEntry = MapEntry(op: Slot, num: nat, unique: nat)

  function EntryOf(w: Option<Op>): Option<MapEntry> {
    if w.None? then None else Some(MapEntry(w.value.slot, w.value.num, w.value.unique))
  }

  function SlotOf(w: Option<Op>): Option<Slot> {
    if w.None? then None else Some(w.value.slot)
  }

  function Ind(id: nat, offPath: bool): nat { 2 * id + (if offPath then 1 else 0) }

  /** The ids of an op are register ids. */
  predicate RegIds(op: Op, numRegs: nat) {
    && (forall i :: 0 <= i < |op.inst.srcs| ==> op.inst.srcs[i] < numRegs)
    && (forall i :: 0 <= i < |op.inst.dests| ==> op.inst.dests[i] < numRegs)
  }

  /** The sources map_op records: the last writer of every source register and, for memory ops that are
      kept in order, the last store. */
  ghost function SourcesOf(v: View, op: Op, oooStores: bool): seq<Option<MapEntry>> {
    seq(|op.inst.srcs|, i requires 0 <= i < |op.inst.srcs| => EntryOf(LookupIn(v, Reg(op.inst.srcs[i]))))
    + (if !oooStores && !op.inst.mem.NotMem? then [EntryOf(LookupIn(v, LastStore))] else [])
  }

  class RegMap {
    const numRegs: nat
    const regMap: array<Option<MapEntry>>
    const mapFlags: array<bool>
    const lastStore: array<Option<MapEntry>>
    var lastStoreFlag: bool

    ghost predicate Valid() {
      regMap.Length == 2 * numRegs && mapFlags.Length == numRegs && lastStore.Length == 2 && regMap != lastStore
    }

    /** The registers of v, id by id. */
    ghost predicate RegsShow(v: View)
      requires Valid()
      reads regMap, mapFlags
    {
      && (forall id, f :: 0 <= id < numRegs ==> regMap[Ind(id, f)] == EntryOf(v.half(Reg(id), f)))
      && (forall id :: 0 <= id < numRegs ==> mapFlags[id] == v.flag(Reg(id)))
    }

    ghost predicate LastStoreShows(v: View)
      requires Valid()
      reads lastStore, this
    {
      && (forall f :: lastStore[Ind(0, f)] == EntryOf(v.half(LastStore, f)))
      && lastStoreFlag == v.flag(LastStore)
    }

    ghost predicate Shows(v: View)
      reads this, regMap, mapFlags, lastStore
    {
      Valid() && RegsShow(v) && LastStoreShows(v)
    }

    /** init_map */
    constructor (numRegs: nat)
      ensures this.numRegs == numRegs && Shows(Blank())
      ensures fresh(regMap) && fresh(mapFlags) && fresh(lastStore)
    {
      this.numRegs := numRegs;
      regMap := new Option<MapEntry>[2 * numRegs](_ => None);
      mapFlags := new bool[numRegs](_ => false);
      lastStore := new Option<MapEntry>[2](_ => None);
      lastStoreFlag := false;
    }

    /** map_op: read_reg_map, read_store_map, update_map. An op never becomes its own source. */
    method MapOp(op: Op, oooStores: bool, ghost v: View) returns (srcs: seq<Option<MapEntry>>)
      requires Shows(v) && RegIds(op, numRegs)
      modifies this, regMap, mapFlags, lastStore
      ensures srcs == SourcesOf(v, op, oooStores)
      ensures Shows(Put(v, op))
    {
      srcs := ReadRegMap(op, v);
      if !oooStores && !op.inst.mem.NotMem? {
        srcs := srcs + [lastStore[Ind(0, lastStoreFlag)]];
      }
      UpdateMap(op, v);
    }

    /** read_reg_map */
    method ReadRegMap(op: Op, ghost v: View) returns (srcs: seq<Option<MapEntry>>)
      requires Valid() && RegsShow(v) && RegIds(op, numRegs)
      ensures |srcs| == |op.inst.srcs|
      ensures forall i :: 0 <= i < |srcs| ==> srcs[i] == EntryOf(LookupIn(v, Reg(op.inst.srcs[i])))
    {
      srcs := [];
      var ii := 0;
      while ii < |op.inst.srcs|
        invariant 0 <= ii == |srcs| <= |op.inst.srcs|
        invariant forall i :: 0 <= i < ii ==> srcs[i] == EntryOf(LookupIn(v, Reg(op.inst.srcs[i])))
      {
        var id := op.inst.srcs[ii];
        srcs := srcs + [regMap[Ind(id, mapFlags[id])]];
        ii := ii + 1;
      }
    }

    /** update_map */
    method UpdateMap(op: Op, ghost v: View)
      requires Shows(v) && RegIds(op, numRegs)
      modifies this, regMap, mapFlags, lastStore
      ensures Shows(Put(v, op))
    {
      UpdateRegs(op, v);
      if op.inst.mem.Store? {
        lastStore[Ind(0, op.offPath)] := EntryOf(Some(op));
        lastStoreFlag := op.offPath;
      }
    }

    method UpdateRegs(op: Op, ghost v: View)
      requires Valid() && RegsShow(v) && RegIds(op, numRegs)
      modifies regMap, mapFlags
      ensures RegsShow(Put(v, op))
    {
      var ii := 0;
      while ii < |op.inst.dests|
        invariant 0 <= ii <= |op.inst.dests|
        invariant forall id, f :: 0 <= id < numRegs ==>
          regMap[Ind(id, f)] ==
            if f == op.offPath && id in op.inst.dests[..ii] then EntryOf(Some(op)) else EntryOf(v.half(Reg(id), f))
        invariant forall id :: 0 <= id < numRegs ==>
          mapFlags[id] == if id in op.inst.dests[..ii] then op.offPath else v.flag(Reg(id))
      {
        var id := op.inst.dests[ii];
        regMap[Ind(id, op.offPath)] := EntryOf(Some(op));
        mapFlags[id] := op.offPath;
        ii := ii + 1;
      }
      assert op.inst.dests[..ii] == op.inst.dests;
    }

    /** The start of recover_map. */
    method ClearMapFlags(ghost v: View)
      requires Shows(v)
      modifies this, mapFlags
      ensures Shows(ClearFlags(v))
    {
      var ii := 0;
      while ii < numRegs
        invariant 0 <= ii <= numRegs
        invariant forall id :: 0 <= id < numRegs ==> mapFlags[id] == if id < ii then false else v.flag(Reg(id))
      {
        mapFlags[ii] := false;
        ii := ii + 1;
      }
      lastStoreFlag := false;
    }
  }

  // ----- the byte map as part of the view

  ghost predicate HashShows(h: Hash, v: View) {
    && HashOk(h)
    && (forall a, f :: Half(h, a, f) == SlotOf(v.half(MemByte(a), f)))
    && (forall a :: FlagAt(h, a) == v.flag(MemByte(a)))
  }

  lemma PutShows(h: Hash, g: Hash, v: View, op: Op)
    requires HashShows(h, v) && HashOk(g)
    requires op.inst.mem.Store? ==>
      && (forall a, f :: Half(g, a, f) ==
            if f == op.offPath && Covered(a, op.inst.va, op.inst.size) then Some(op.slot) else Half(h, a, f))
      && (forall a :: FlagAt(g, a) == if Covered(a, op.inst.va, op.inst.size) then op.offPath else FlagAt(h, a))
    requires !op.inst.mem.Store? ==> g == h
    ensures HashShows(g, Put(v, op))
  {
  }

  lemma EntryPresence(h: Hash, v: View, a: nat)
    requires HashOk(h) && forall b, f :: Half(h, b, f) == SlotOf(v.half(MemByte(b), f))
    ensures Key(a) in h <==> EntryPresent(v.half, a)
  {
    if Key(a) in h {
      var b, f := EntryKept(h, Key(a));
      assert Key(b) == Key(a) && v.half(MemByte(b), f).Some?;
    } else {
      assert forall b, f :: Key(b) == Key(a) ==> Half(h, b, f) == None;
    }
  }

  lemma DelShows(h: Hash, g: Hash, v: View, op: Op)
    requires HashShows(h, v) && HashOk(g)
    requires op.inst.mem.Store? ==>
      && (forall a, f :: Half(g, a, f) ==
            if f == op.offPath && Covered(a, op.inst.va, op.inst.size) && Half(h, a, f) == Some(op.slot) then None
            else Half(h, a, f))
      && (forall a :: FlagAt(g, a) == (FlagAt(h, a) && Key(a) in g))
    requires !op.inst.mem.Store? ==> g == h
    ensures HashShows(g, Del(v, op))
  {
    var d := Del(v, op);
    assert forall a, f :: Half(g, a, f) == SlotOf(d.half(MemByte(a), f));
    forall a ensures FlagAt(g, a) == d.flag(MemByte(a)) {
      EntryPresence(g, d, a);
    }
  }

  // ----- all maps together

  ghost predicate MapsShow(regs: RegMap, mem: MemMap, v: View)
    reads regs, regs.regMap, regs.mapFlags, regs.lastStore, mem
  {
    regs.Shows(v) && mem.Valid() && HashShows(mem.hash, v)
  }

  /** update_map and, for stores, update_store_hash. */
  method ReplayOp(regs: RegMap, mem: MemMap, op: Op, ghost v: View)
    requires MapsShow(regs, mem, v) && RegIds(op, regs.numRegs)
    modifies regs, regs.regMap, regs.mapFlags, regs.lastStore, mem
    ensures MapsShow(regs, mem, Put(v, op))
  {
    ghost var h := mem.hash;
    regs.UpdateMap(op, v);
    if op.inst.mem.Store? {
      mem.UpdateStoreHash(op.inst.va, op.inst.size, op.offPath, op.slot);
    }
    PutShows(h, mem.hash, v, op);
  }

  /** rebuild_offpath_map: find the oldest off-path op of the list and replay from there. */
  method RebuildOffpathMap(regs: RegMap, mem: MemMap, seqOps: seq<Op>, ghost v: View)
    requires MapsShow(regs, mem, v) && forall i :: 0 <= i < |seqOps| ==> RegIds(seqOps[i], regs.numRegs)
    modifies regs, regs.regMap, regs.mapFlags, regs.lastStore, mem
    ensures MapsShow(regs, mem, PutAll(v, OffPart(seqOps)))
  {
    var i := 0;
    while i < |seqOps| && !seqOps[i].offPath
      invariant 0 <= i <= |seqOps| && forall j :: 0 <= j < i ==> !seqOps[j].offPath
    {
      i := i + 1;
    }
    FirstOffIs(seqOps, i);
    ReplayFrom(regs, mem, seqOps, i, v);
  }

  /** The second loop of rebuild_offpath_map. */
  method ReplayFrom(regs: RegMap, mem: MemMap, seqOps: seq<Op>, first: nat, ghost v: View)
    requires MapsShow(regs, mem, v) && forall i :: 0 <= i < |seqOps| ==> RegIds(seqOps[i], regs.numRegs)
    requires first <= |seqOps|
    modifies regs, regs.regMap, regs.mapFlags, regs.lastStore, mem
    ensures MapsShow(regs, mem, PutAll(v, seqOps[first..]))
  {
    var i := first;
    ghost var w := v;
    while i < |seqOps|
      invariant first <= i <= |seqOps|
      invariant w == PutAll(v, seqOps[first..i])
      invariant MapsShow(regs, mem, w)
    {
      assert seqOps[first..i + 1][..i - first] == seqOps[first..i];
      ReplayOp(regs, mem, seqOps[i], w);
      w := Put(w, seqOps[i]);
      i := i + 1;
    }
    assert seqOps[first..i] == seqOps[first..];
  }

  /** recover_map, and after it the stores of the flushed ops deleted as they are freed one by one. */
  method RecoverMaps(regs: RegMap, mem: MemMap, survivors: seq<Op>, freed: seq<Op>, ghost v: View)
    requires MapsShow(regs, mem, v) && forall i :: 0 <= i < |survivors| ==> RegIds(survivors[i], regs.numRegs)
    modifies regs, regs.regMap, regs.mapFlags, regs.lastStore, mem
    ensures MapsShow(regs, mem, RecoverView(v, survivors, freed))
  {
    regs.ClearMapFlags(v);
    mem.RecoverFlags();
    RebuildOffpathMap(regs, mem, survivors, ClearFlags(v));
    ghost var rebuilt := PutAll(ClearFlags(v), OffPart(survivors));
    var i := 0;
    while i < |freed|
      invariant 0 <= i <= |freed|
      invariant MapsShow(regs, mem, DelAll(rebuilt, freed[..i]))
    {
      DeleteOp(regs, mem, freed[i], DelAll(rebuilt, freed[..i]));
      assert freed[..i + 1][..i] == freed[..i];
      i := i + 1;
    }
    assert freed[..i] == freed;
  }

  /** What free_op does to the maps. */
  method DeleteOp(regs: RegMap, mem: MemMap, op: Op, ghost v: View)
    requires MapsShow(regs, mem, v)
    modifies mem
    ensures MapsShow(regs, mem, Del(v, op))
  {
    ghost var h := mem.hash;
    if op.inst.mem.Store? {
      mem.DeleteStoreHashEntry(op.inst.va, op.inst.size, op.offPath, op.slot);
    }
    DelShows(h, mem.hash, v, op);
  }
}
